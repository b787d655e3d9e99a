/**
 The dominator tree of `public/UbiNodeDominatorTree.h`: a post-order traversal numbers the
 nodes reachable from the root and collects their predecessors, the fixpoint loop finds the
 immediate dominators of the numbers, and these are the immediate dominators of the nodes.
 */
module DominatorTrees {
  import opened Graphs
  import opened PostOrders
  import opened PostOrderLaws
  import opened DominatorFixpoint
  import Dominators

  datatype Option<T> = None | Some(value: T)

  /** Every path from the root to `b` contains `a`. */
  ghost predicate Dominates(g: Graph, root: Node, a: Node, b: Node) {
    forall p :: PathFrom(g, root, b, p) ==> a in p
  }

  /** `a` dominates `b`, is not `b`, and dominates no other node that dominates `b`. */
  ghost predicate ImmediatelyDominates(g: Graph, root: Node, a: Node, b: Node) {
    && a != b && Dominates(g, root, a, b)
    && forall c :: c != a && c != b && Dominates(g, root, c, b) ==> !Dominates(g, root, a, c)
  }

  // ---------------------------------------------------------------------------
  // What the traversal collects
  // ---------------------------------------------------------------------------

  /** The nodes reported, in order. */
  function NodesOf(log: seq<Event>): seq<Node> {
    if log == [] then []
    else
      var call := log[|log| - 1];
      NodesOf(log[..|log| - 1]) + (if call.OnNode? then [call.node] else [])
  }

  /** For each referent, the origins of the edges reported to it. */
  function OriginsOf(log: seq<Event>): map<Node, set<Node>> {
    if log == [] then map[]
    else
      var before, call := OriginsOf(log[..|log| - 1]), log[|log| - 1];
      if call.OnNode? then before
      else
        var w := call.edge.referent;
        before[w := (if w in before then before[w] else {}) + {call.origin}]
  }

  /** The node visitor refuses a node that cannot be numbered. */
  function CountingVisitor(): Visitor {
    (log: seq<Event>) => log == [] || log[|log| - 1].OnEdge? || |NodesOf(log)| != Dominators.UNDEFINED
  }

  lemma {:induction false} NodesOfConcat(a: seq<Event>, b: seq<Event>)
    ensures NodesOf(a + b) == NodesOf(a) + NodesOf(b)
    decreases |b|
  {
    if b == [] {
      assert a + b == a;
    } else {
      NodesOfConcat(a, b[..|b| - 1]);
      assert (a + b)[..|a + b| - 1] == a + b[..|b| - 1];
    }
  }

  lemma {:induction false} NodesOfCount(log: seq<Event>, m: Node)
    ensures multiset(NodesOf(log))[m] == NodeCount(log, m)
    decreases |log|
  {
    if log != [] {
      var front, call := log[..|log| - 1], log[|log| - 1];
      NodesOfCount(front, m);
      assert log == front + [call];
      CountAppend(front, [call], OnNode(m));
    }
  }

  lemma {:induction false} OriginsAre(log: seq<Event>, n: Node, o: Node)
    ensures (n in OriginsOf(log) && o in OriginsOf(log)[n]) <==> exists e: Edge :: e.referent == n && OnEdge(o, e) in log
    ensures n in OriginsOf(log) ==> OriginsOf(log)[n] != {}
    decreases |log|
  {
    if log != [] {
      var front, call := log[..|log| - 1], log[|log| - 1];
      OriginsAre(front, n, o);
      assert log == front + [call];
    }
  }

  lemma AcceptedLength(log: seq<Event>, n: nat)
    requires n <= |log| && forall i :: 0 < i <= n ==> CountingVisitor()(log[..i])
    ensures |NodesOf(log[..n])| < Dominators.UNDEFINED
    decreases n
  {
    if n > 0 {
      AcceptedLength(log, n - 1);
      assert log[..n][..n - 1] == log[..n - 1];
    }
  }

  /** The nodes the root reaches. */
  ghost function Reached(g: Graph, root: Node): set<Node> {
    set n | n in g && Reaches(g, root, n)
  }

  lemma {:induction false} DistinctSize(s: seq<Node>)
    requires Distinct(s)
    ensures |set n | n in s| == |s|
    decreases |s|
  {
    if s != [] {
      var t, x := s[..|s| - 1], s[|s| - 1];
      DistinctSize(t);
      assert s == t + [x];
      assert (set n | n in s) == (set n | n in t) + {x};
    }
  }

  lemma {:induction false} PathStaysInside(g: Graph, p: seq<Node>)
    requires Closed(g) && IsPath(g, p) && p[0] in g
    ensures p[|p| - 1] in g
    decreases |p|
  {
    if |p| > 1 {
      PathStaysInside(g, p[..|p| - 1]);
      LinkedClosed(g, p[|p| - 2], p[|p| - 1]);
    }
  }

  /** As many nodes are numbered as the root reaches. */
  lemma NumberOfNodes(g: Graph, root: Node)
    requires Closed(g) && root in g
    ensures |NodesOf(DepthFirst(g, [root]).log)| == |Reached(g, root)|
  {
    hide Reaches, DepthFirst;
    var postOrder := NodesOf(DepthFirst(g, [root]).log);
    PostOrderIsNumbering(g, root);
    DistinctSize(postOrder);
    forall n ensures n in postOrder <==> n in Reached(g, root) {
      if Reaches(g, root, n) {
        ReachedIsInside(g, root, n);
      }
    }
    assert (set n | n in postOrder) == Reached(g, root);
  }

  lemma ReachedIsInside(g: Graph, root: Node, n: Node)
    requires Closed(g) && root in g && Reaches(g, root, n)
    ensures n in g
  {
    var p :| PathFrom(g, root, n, p);
    PathStaysInside(g, p);
  }

  /** Runs the traversal; it fails exactly when the root reaches too many nodes to number. */
  method DoTraversal(g: Graph, root: Node) returns (ok: bool, postOrder: seq<Node>, predecessorSets: map<Node, set<Node>>)
    requires Closed(g) && root in g
    ensures var log := DepthFirst(g, [root]).log;
            ok ==> postOrder == NodesOf(log) && predecessorSets == OriginsOf(log)
    ensures ok <==> |Reached(g, root)| < 0xFFFF_FFFF
  {
    var traversal := new PostOrder(g);
    traversal.AddStart(root);
    assert traversal.starts == [root];
    ok := traversal.Traverse(CountingVisitor());
    postOrder, predecessorSets := NodesOf(traversal.log), OriginsOf(traversal.log);
    ghost var full := DepthFirst(g, [root]).log;
    var log := traversal.log;
    NumberOfNodes(g, root);
    if ok {
      assert log[..|log|] == log;
      AcceptedLength(log, |log|);
    } else {
      assert full == log + full[|log|..];
      NodesOfConcat(log, full[|log|..]);
    }
  }

  // ---------------------------------------------------------------------------
  // Properties of the post order
  // ---------------------------------------------------------------------------

  ghost predicate Numbering(g: Graph, root: Node, postOrder: seq<Node>) {
    && Distinct(postOrder) && postOrder != [] && postOrder[|postOrder| - 1] == root
    && (forall n :: n in postOrder <==> Reaches(g, root, n))
    && forall i :: 0 <= i < |postOrder| - 1 ==> LinkedFromLater(g, postOrder, i)
  }

  ghost predicate LinkedFromLater(g: Graph, postOrder: seq<Node>, i: nat)
    requires i < |postOrder|
  {
    exists j :: i < j < |postOrder| && Linked(g, postOrder[j], postOrder[i])
  }

  /** A visit ends by reporting its node. */
  lemma {:induction false} VisitEndsWith(g: Graph, seen: set<Node>, n: Node, k: nat)
    requires Closed(g) && n in g && k <= |g[n]|
    ensures var log := Visit(g, seen, n, k).log; log != [] && log[|log| - 1] == OnNode(n)
    decreases g.Keys - seen, k
  {
    if k > 0 {
      var w := g[n][k - 1].referent;
      if w in seen {
        VisitEndsWith(g, seen, n, k - 1);
      } else {
        VisitEndsWith(g, Visit(g, seen + {w}, w, |g[w]|).seen, n, k - 1);
      }
    }
  }

  /** `m` is reported, and later some node with an edge to `m`. */
  ghost predicate ParentLater(g: Graph, log: seq<Event>, m: Node) {
    exists i, j :: 0 <= i < j < |log| && log[i] == OnNode(m) && log[j].OnNode? && Linked(g, log[j].node, m)
  }

  lemma ParentLaterWithin(g: Graph, a: seq<Event>, log: seq<Event>, b: seq<Event>, m: Node)
    requires ParentLater(g, log, m)
    ensures ParentLater(g, a + log + b, m)
  {
    var i, j :| 0 <= i < j < |log| && log[i] == OnNode(m) && log[j].OnNode? && Linked(g, log[j].node, m);
    var all := a + log + b;
    assert all[|a| + i] == log[i] && all[|a| + j] == log[j];
  }

  /** A newly seen node is reported before some node with an edge to it. */
  lemma {:induction false} VisitParentLater(g: Graph, seen: set<Node>, n: Node, k: nat, m: Node)
    requires Closed(g) && n in g && k <= |g[n]| && m in Visit(g, seen, n, k).seen && m !in seen
    ensures ParentLater(g, Visit(g, seen, n, k).log, m)
    decreases g.Keys - seen, k
  {
    hide ParentLater;
    var e := g[n][k - 1];
    var w := e.referent;
    var head := [OnEdge(n, e)];
    if w in seen {
      var rest := Visit(g, seen, n, k - 1).log;
      VisitParentLater(g, seen, n, k - 1, m);
      ParentLaterWithin(g, head, rest, [], m);
      assert head + rest + [] == head + rest;
    } else {
      var sub := Visit(g, seen + {w}, w, |g[w]|);
      var rest := Visit(g, sub.seen, n, k - 1).log;
      hide Visit;
      if m == w {
        VisitEndsWith(g, seen + {w}, w, |g[w]|);
        VisitEndsWith(g, sub.seen, n, k - 1);
        ParentAfter(g, head, sub.log, rest, n, m);
      } else if m in sub.seen {
        VisitParentLater(g, seen + {w}, w, |g[w]|, m);
        ParentLaterWithin(g, head, sub.log, rest, m);
      } else {
        VisitParentLater(g, sub.seen, n, k - 1, m);
        ParentLaterWithin(g, head + sub.log, rest, [], m);
        assert head + sub.log + rest + [] == head + sub.log + rest;
      }
    }
  }

  lemma ParentAfter(g: Graph, head: seq<Event>, sub: seq<Event>, rest: seq<Event>, n: Node, m: Node)
    requires sub != [] && sub[|sub| - 1] == OnNode(m) && rest != [] && rest[|rest| - 1] == OnNode(n) && Linked(g, n, m)
    ensures ParentLater(g, head + sub + rest, m)
  {
    var all := head + sub + rest;
    assert all[|head| + |sub| - 1] == OnNode(m) && all[|all| - 1] == OnNode(n);
  }

  lemma SingleStart(g: Graph, root: Node)
    requires Closed(g) && root in g
    ensures var r := Visit(g, {root}, root, |g[root]|); DepthFirst(g, [root]) == r
  {
    assert Elements([root]) == {root} && [root][..0] == [];
    var r := Visit(g, {root}, root, |g[root]|);
    assert r.log + [] == r.log;
    assert VisitStarts(g, r.seen, []) == Outcome([], r.seen);
  }

  /** Two reports at places of the log are at places of the post order, in the same order. */
  lemma PlacesInPostOrder(log: seq<Event>, i: nat, j: nat) returns (a: nat, b: nat)
    requires i < j < |log| && log[i].OnNode? && log[j].OnNode?
    ensures a < b < |NodesOf(log)| && NodesOf(log)[a] == log[i].node && NodesOf(log)[b] == log[j].node
  {
    assert log == log[..j + 1] + log[j + 1..] && log[..j + 1][..j] == log[..j];
    assert log[..j] == log[..i + 1] + log[i + 1..j] && log[..i + 1][..i] == log[..i];
    NodesOfConcat(log[..j + 1], log[j + 1..]);
    NodesOfConcat(log[..i + 1], log[i + 1..j]);
    a, b := |NodesOf(log[..i])|, |NodesOf(log[..j])|;
  }

  lemma ReportedOnce(g: Graph, root: Node, m: Node)
    requires Closed(g) && root in g
    ensures NodeCount(DepthFirst(g, [root]).log, m) == One(Reaches(g, root, m))
  {
    NodesReported(g, [root], m);
    assert root in [root];
    assert ReachableFrom(g, [root], m) <==> Reaches(g, root, m);
    if m == root {
      ReachesSelf(g, root);
      assert multiset([root])[root] == 1;
    }
  }

  lemma {:induction false} VisitOrigins(g: Graph, seen: set<Node>, n: Node, k: nat)
    requires Closed(g) && n in g && k <= |g[n]|
    ensures forall o, e :: OnEdge(o, e) in Visit(g, seen, n, k).log ==> o in g
    decreases g.Keys - seen, k
  {
    if k > 0 {
      var w := g[n][k - 1].referent;
      if w in seen {
        VisitOrigins(g, seen, n, k - 1);
      } else {
        VisitOrigins(g, seen + {w}, w, |g[w]|);
        VisitOrigins(g, Visit(g, seen + {w}, w, |g[w]|).seen, n, k - 1);
      }
    }
  }

  lemma OriginInGraph(g: Graph, root: Node, o: Node, e: Edge)
    requires Closed(g) && root in g && OnEdge(o, e) in DepthFirst(g, [root]).log
    ensures o in g
  {
    SingleStart(g, root);
    VisitOrigins(g, {root}, root, |g[root]|);
  }

  lemma Counted(log: seq<Event>, call: Event)
    ensures call in log <==> Count(log, call) > 0
  {
    assert call in log <==> call in multiset(log);
  }

  /** The edges reported are those of the reachable nodes. */
  lemma EdgeReportedIff(g: Graph, root: Node, o: Node, e: Edge)
    requires Closed(g) && root in g
    ensures OnEdge(o, e) in DepthFirst(g, [root]).log <==> o in g && Reaches(g, root, o) && e in g[o]
  {
    hide Visit, VisitStarts, DepthFirst, Count, Reaches;
    var log := DepthFirst(g, [root]).log;
    Counted(log, OnEdge(o, e));
    ReportedOnce(g, root, o);
    if o in g {
      EdgesReported(g, [root], o, e);
      assert e in g[o] <==> e in multiset(g[o]);
      OneTimes(Reaches(g, root, o), Copies(g[o], e));
    } else if OnEdge(o, e) in log {
      OriginInGraph(g, root, o, e);
    }
  }

  lemma OneTimes(b: bool, c: nat)
    ensures One(b) * c > 0 <==> b && c > 0
  {
  }

  /** The origins collected for a node are the reachable nodes with an edge to it. */
  lemma OriginsArePredecessors(g: Graph, root: Node, n: Node, o: Node)
    requires Closed(g) && root in g
    ensures var sets := OriginsOf(DepthFirst(g, [root]).log);
            (n in sets && o in sets[n]) <==> Reaches(g, root, o) && Linked(g, o, n)
  {
    var log := DepthFirst(g, [root]).log;
    OriginsAre(log, n, o);
    if e: Edge :| e.referent == n && OnEdge(o, e) in log {
      EdgeReportedIff(g, root, o, e);
      var i :| 0 <= i < |g[o]| && g[o][i] == e;
    }
    if Reaches(g, root, o) && Linked(g, o, n) {
      var i :| 0 <= i < |g[o]| && g[o][i].referent == n;
      EdgeReportedIff(g, root, o, g[o][i]);
    }
  }

  /** The post order lists the reachable nodes once each, the root last, each other node before one with an edge to it. */
  lemma PostOrderIsNumbering(g: Graph, root: Node)
    requires Closed(g) && root in g
    ensures Numbering(g, root, NodesOf(DepthFirst(g, [root]).log))
  {
    var log := DepthFirst(g, [root]).log;
    var postOrder := NodesOf(log);
    hide Visit, VisitStarts, DepthFirst, Reaches, NodeCount;
    RootIsLast(g, root);
    forall m ensures multiset(postOrder)[m] == One(Reaches(g, root, m)) {
      NodesOfCount(log, m);
      ReportedOnce(g, root, m);
    }
    DistinctCounts(postOrder);
    assert forall n :: n in postOrder <==> n in multiset(postOrder);
    forall i | 0 <= i < |postOrder| - 1 ensures LinkedFromLater(g, postOrder, i) {
      assert postOrder[i] in postOrder && postOrder[i] != root;
      LaterPredecessor(g, root, i);
    }
  }

  lemma RootIsLast(g: Graph, root: Node)
    requires Closed(g) && root in g
    ensures var postOrder := NodesOf(DepthFirst(g, [root]).log);
            postOrder != [] && postOrder[|postOrder| - 1] == root
  {
    SingleStart(g, root);
    VisitEndsWith(g, {root}, root, |g[root]|);
  }

  lemma LaterPredecessor(g: Graph, root: Node, i: nat)
    requires Closed(g) && root in g
    requires var postOrder := NodesOf(DepthFirst(g, [root]).log);
             Distinct(postOrder) && i < |postOrder| && postOrder[i] != root && Reaches(g, root, postOrder[i])
    ensures LinkedFromLater(g, NodesOf(DepthFirst(g, [root]).log), i)
  {
    var log := DepthFirst(g, [root]).log;
    var m := NodesOf(log)[i];
    SingleStart(g, root);
    SeenIsReachable(g, [root], m);
    assert root in [root] && ReachableFrom(g, [root], m);
    VisitParentLater(g, {root}, root, |g[root]|, m);
    var x, y :| 0 <= x < y < |log| && log[x] == OnNode(m) && log[y].OnNode? && Linked(g, log[y].node, m);
    var a, b := PlacesInPostOrder(log, x, y);
    assert a == i;
  }

  // ---------------------------------------------------------------------------
  // Numbers for nodes
  // ---------------------------------------------------------------------------

  ghost predicate IndexOf<T(!new)>(index: map<T, nat>, postOrder: seq<T>) {
    && (forall n :: n in index <==> n in postOrder)
    && forall i :: 0 <= i < |postOrder| ==> postOrder[i] in index && index[postOrder[i]] == i
  }

  method MapNodesToTheirIndices(postOrder: seq<Node>) returns (index: map<Node, nat>)
    requires Distinct(postOrder)
    ensures IndexOf(index, postOrder)
  {
    index := map[];
    var i := 0;
    while i < |postOrder|
      invariant 0 <= i <= |postOrder|
      invariant forall n :: n in index <==> n in postOrder[..i]
      invariant forall k :: 0 <= k < i ==> postOrder[k] in index && index[postOrder[k]] == k
    {
      index := index[postOrder[i] := i];
      assert postOrder[..i + 1] == postOrder[..i] + [postOrder[i]];
      i := i + 1;
    }
    assert postOrder[..i] == postOrder;
  }

  ghost predicate LinkedPlaces(g: Graph, postOrder: seq<Node>, p: nat, i: nat) {
    p < |postOrder| && i < |postOrder| && Linked(g, postOrder[p], postOrder[i])
  }

  /** The predecessor lists of a numbering; the root's is empty. */
  ghost predicate PredecessorsOf(g: Graph, postOrder: seq<Node>, preds: Dominators.Predecessors) {
    && |preds| == |postOrder|
    && (forall i, p: nat :: 0 <= i < |preds| - 1 ==>
          (p in preds[i] <==> LinkedPlaces(g, postOrder, p, i)))
    && (preds != [] ==> preds[|preds| - 1] == [])
  }

  /** Every node but the root was reached by an edge, so its set of predecessors is there. */
  method ConvertPredecessorSetsToVectors(ghost g: Graph, root: Node, postOrder: seq<Node>, predecessorSets: map<Node, set<Node>>,
                                         index: map<Node, nat>)
    returns (preds: Dominators.Predecessors)
    requires Numbering(g, root, postOrder) && IndexOf(index, postOrder)
    requires forall n, o :: (n in predecessorSets && o in predecessorSets[n]) <==> Reaches(g, root, o) && Linked(g, o, n)
    ensures PredecessorsOf(g, postOrder, preds)
  {
    hide Linked, Reaches;
    preds := [];
    var i := 0;
    while i < |postOrder| - 1
      invariant 0 <= i <= |postOrder| - 1 && |preds| == i
      invariant forall k, p: nat :: 0 <= k < i ==> (p in preds[k] <==> LinkedPlaces(g, postOrder, p, k))
    {
      var node := postOrder[i];
      assert LinkedFromLater(g, postOrder, i);
      ghost var j: nat :| i < j < |postOrder| && Linked(g, postOrder[j], node);
      assert postOrder[j] in postOrder;
      forall o | o in predecessorSets[node] ensures o in postOrder {
        assert Reaches(g, root, o);
      }
      var vector := IndicesOf(predecessorSets[node], postOrder, index);
      preds := preds + [vector];
      i := i + 1;
    }
    ghost var lists := preds;
    preds := preds + [[]];
    assert forall k :: 0 <= k < |lists| ==> preds[k] == lists[k];
    assert preds[|preds| - 1] == [];
  }

  method IndicesOf<T(==, !new)>(nodes: set<T>, postOrder: seq<T>, index: map<T, nat>) returns (indices: seq<nat>)
    requires IndexOf(index, postOrder) && forall n :: n in nodes ==> n in postOrder
    ensures forall p: nat :: p in indices <==> p < |postOrder| && postOrder[p] in nodes
  {
    indices := [];
    var rest := nodes;
    while rest != {}
      invariant rest <= nodes
      invariant forall p: nat :: p in indices <==> p < |postOrder| && postOrder[p] in nodes - rest
      decreases rest
    {
      var n :| n in rest;
      assert postOrder[index[n]] == n;
      indices := indices + [index[n]];
      rest := rest - {n};
    }
  }

  // ---------------------------------------------------------------------------
  // Dominators of nodes and of numbers
  // ---------------------------------------------------------------------------

  /** A numbering small enough for the indices, with its predecessor lists. */
  ghost predicate Numbers(g: Graph, root: Node, postOrder: seq<Node>, preds: Dominators.Predecessors) {
    Numbering(g, root, postOrder) && PredecessorsOf(g, postOrder, preds) && |postOrder| < Dominators.UNDEFINED
  }

  lemma NumbersAreNumbered(g: Graph, root: Node, postOrder: seq<Node>, preds: Dominators.Predecessors)
    requires Numbers(g, root, postOrder, preds)
    ensures Dominators.Numbered(preds)
  {
    hide Linked, Reaches;
    forall i, k | 0 <= i < |preds| && 0 <= k < |preds[i]| ensures preds[i][k] < |preds| {
      var p := preds[i][k];
      assert p in preds[i];
      assert i != |preds| - 1 && p < |postOrder|;
    }
    forall i | 0 <= i < |preds| - 1 ensures Dominators.HasLaterPredecessor(preds, i) {
      assert LinkedFromLater(g, postOrder, i);
      var j: nat :| i < j < |postOrder| && Linked(g, postOrder[j], postOrder[i]);
      assert j in preds[i];
    }
  }

  /** A path of numbers from the root is a path of nodes. */
  lemma {:induction false} NodePathOf(g: Graph, root: Node, postOrder: seq<Node>, preds: Dominators.Predecessors, q: seq<nat>)
    returns (p: seq<Node>)
    requires Numbers(g, root, postOrder, preds) && Dominators.RootPath(preds, q)
    ensures PathFrom(g, root, postOrder[q[|q| - 1]], p)
    ensures forall n :: n in p ==> exists x :: x in q && x < |postOrder| && postOrder[x] == n
    decreases |q|
  {
    var x := q[|q| - 1];
    if |q| == 1 {
      p := [root];
      assert x in q;
    } else {
      var front := NodePathOf(g, root, postOrder, preds, q[..|q| - 1]);
      var u := q[|q| - 2];
      assert u in preds[x] && x < |preds| - 1;
      PathExtends(g, front, postOrder[x]);
      p := front + [postOrder[x]];
      forall n | n in p ensures exists y :: y in q && y < |postOrder| && postOrder[y] == n {
        if n in front {
          var y :| y in q[..|q| - 1] && y < |postOrder| && postOrder[y] == n;
          assert y in q;
        } else {
          assert x in q;
        }
      }
    }
  }

  /** The nodes of a path from the root contain a path of numbers with the same end. */
  lemma {:induction false} IndexPathOf(g: Graph, root: Node, postOrder: seq<Node>, preds: Dominators.Predecessors,
                                       index: map<Node, nat>, p: seq<Node>) returns (q: seq<nat>)
    requires Numbers(g, root, postOrder, preds) && IndexOf(index, postOrder) && IsPath(g, p) && p[0] == root
    ensures p[|p| - 1] in postOrder && Dominators.RootPath(preds, q) && q[|q| - 1] == index[p[|p| - 1]]
    ensures forall x :: x in q ==> x < |postOrder| && postOrder[x] in p
    decreases |p|
  {
    var v := p[|p| - 1];
    assert PathFrom(g, root, v, p);
    assert v in postOrder && postOrder[index[v]] == v;
    if v == root {
      assert index[postOrder[|postOrder| - 1]] == |postOrder| - 1;
      q := [index[v]];
    } else {
      var front := p[..|p| - 1];
      var up := IndexPathOf(g, root, postOrder, preds, index, front);
      var u := front[|front| - 1];
      assert postOrder[index[u]] == u && Linked(g, u, v);
      assert index[u] in preds[index[v]];
      q := up + [index[v]];
      assert q[..|q| - 1] == up;
    }
  }

  lemma DominatesIff(g: Graph, root: Node, postOrder: seq<Node>, preds: Dominators.Predecessors, index: map<Node, nat>,
                     a: nat, b: nat)
    requires Numbers(g, root, postOrder, preds) && IndexOf(index, postOrder) && a < |postOrder| && b < |postOrder|
    ensures Dominators.Dominates(preds, a, b) <==> Dominates(g, root, postOrder[a], postOrder[b])
  {
    hide PredecessorsOf, Linked, Numbering;
    NumberingIsDistinct(g, root, postOrder);
    if Dominators.Dominates(preds, a, b) {
      forall p | PathFrom(g, root, postOrder[b], p) ensures postOrder[a] in p {
        var q := IndexPathOf(g, root, postOrder, preds, index, p);
      }
    }
    if Dominates(g, root, postOrder[a], postOrder[b]) {
      forall q | Dominators.RootPath(preds, q) && q[|q| - 1] == b ensures a in q {
        var p := NodePathOf(g, root, postOrder, preds, q);
        assert postOrder[a] in p;
      }
    }
  }

  lemma NumberingIsDistinct(g: Graph, root: Node, postOrder: seq<Node>)
    requires Numbering(g, root, postOrder)
    ensures Distinct(postOrder) && forall n :: n in postOrder <==> Reaches(g, root, n)
  {
  }

  /** Only reachable nodes dominate a reachable node. */
  lemma DominatorIsReachable(g: Graph, root: Node, a: Node, b: Node)
    requires Dominates(g, root, a, b) && Reaches(g, root, b)
    ensures Reaches(g, root, a)
  {
    var p :| PathFrom(g, root, b, p);
    var i :| 0 <= i < |p| && p[i] == a;
    PrefixIsPath(g, p, i);
    assert PathFrom(g, root, a, p[..i + 1]);
  }

  lemma {:induction false} PrefixIsPath(g: Graph, p: seq<Node>, i: nat)
    requires IsPath(g, p) && i < |p|
    ensures IsPath(g, p[..i + 1])
    decreases |p|
  {
    if i == |p| - 1 {
      assert p[..i + 1] == p;
    } else {
      PrefixIsPath(g, p[..|p| - 1], i);
      assert p[..|p| - 1][..i + 1] == p[..i + 1];
    }
  }

  /** The immediate dominators of the numbers are the immediate dominators of the nodes, and the only ones. */
  lemma ImmediateIff(g: Graph, root: Node, postOrder: seq<Node>, preds: Dominators.Predecessors, index: map<Node, nat>,
                     d: seq<nat>, b: nat, n: Node)
    requires Numbers(g, root, postOrder, preds) && IndexOf(index, postOrder) && AreDominators(preds, d) && b < |d| - 1
    ensures d[b] < |postOrder| && (ImmediatelyDominates(g, root, n, postOrder[b]) <==> n == postOrder[d[b]])
  {
    hide Numbers, Linked, Dominators.Dominates, Dominates;
    NumbersHold(g, root, postOrder, preds);
    var bNode := postOrder[b];
    forall x: nat, y: nat | x < |postOrder| && y < |postOrder|
      ensures Dominators.Dominates(preds, x, y) <==> Dominates(g, root, postOrder[x], postOrder[y])
    {
      DominatesIff(g, root, postOrder, preds, index, x, y);
    }
    assert Dominators.Known(d, b) && d[b] < |postOrder|;
    assert Dominators.ImmediatelyDominates(preds, d[b], b);
    if n == postOrder[d[b]] {
      forall c | c != n && c != bNode && Dominates(g, root, c, bNode) ensures !Dominates(g, root, n, c) {
        DominatorIsReachable(g, root, c, bNode);
        assert postOrder[index[c]] == c;
      }
    }
    if ImmediatelyDominates(g, root, n, bNode) {
      DominatorIsReachable(g, root, n, bNode);
      assert postOrder[index[n]] == n;
      assert Dominators.ImmediatelyDominates(preds, index[n], b);
    }
  }

  lemma NumbersHold(g: Graph, root: Node, postOrder: seq<Node>, preds: Dominators.Predecessors)
    requires Numbers(g, root, postOrder, preds)
    ensures Distinct(postOrder) && |preds| == |postOrder| && forall n :: n in postOrder <==> Reaches(g, root, n)
  {
  }

  /** `a` immediately dominates `b`, and no other node does. */
  ghost predicate IsImmediate(g: Graph, root: Node, b: Node, a: Node) {
    forall n :: ImmediatelyDominates(g, root, n, b) <==> n == a
  }

  class DominatorTree {
    const postOrder: seq<Node>
    const nodeToPostOrderIndex: map<Node, nat>
    const doms: seq<nat>

    // The graph and the root it was made from.
    ghost const g: Graph
    ghost const root: Node

    /** The nodes are numbered, and each number but the root's is mapped to its one immediate dominator. */
    ghost predicate Valid() {
      && Numbering(g, root, postOrder) && IndexOf(nodeToPostOrderIndex, postOrder)
      && |doms| == |postOrder| && doms[|doms| - 1] == |doms| - 1
      && forall i :: 0 <= i < |doms| - 1 ==>
           doms[i] < |doms| && IsImmediate(g, root, postOrder[i], postOrder[doms[i]])
    }

    constructor (postOrder: seq<Node>, index: map<Node, nat>, doms: seq<nat>, ghost g: Graph, ghost root: Node,
                 ghost preds: Dominators.Predecessors)
      requires Numbers(g, root, postOrder, preds) && IndexOf(index, postOrder) && AreDominators(preds, doms)
      ensures Valid() && this.g == g && this.root == root
    {
      this.postOrder, this.nodeToPostOrderIndex, this.doms := postOrder, index, doms;
      this.g, this.root := g, root;
      new;
      forall i | 0 <= i < |doms| - 1 ensures doms[i] < |doms| && IsImmediate(g, root, postOrder[i], postOrder[doms[i]]) {
        ImmediateIff(g, root, postOrder, preds, index, doms, i, root);
        forall n ensures ImmediatelyDominates(g, root, n, postOrder[i]) <==> n == postOrder[doms[i]] {
          ImmediateIff(g, root, postOrder, preds, index, doms, i, n);
        }
      }
    }

    /** The tree of the graph visible from the root; there is none only if there are too many nodes to number. */
    static method Create(g: Graph, root: Node) returns (tree: DominatorTree?)
      requires Closed(g) && root in g
      ensures tree != null ==> fresh(tree) && tree.Valid() && tree.g == g && tree.root == root
      ensures tree == null <==> |set n | n in g && Reaches(g, root, n)| >= 0xFFFF_FFFF
    {
      hide Numbering, IndexOf, PredecessorsOf, AreDominators;
      var ok, postOrder, predecessorSets := DoTraversal(g, root);
      assert Reached(g, root) == set n | n in g && Reaches(g, root, n);
      if !ok {
        return null;
      }
      NumberOfNodes(g, root);
      PostOrderIsNumbering(g, root);
      NumberingIsDistinct(g, root, postOrder) by { PostOrderIsNumbering(g, root); }
      var index := MapNodesToTheirIndices(postOrder);
      forall n, o ensures (n in predecessorSets && o in predecessorSets[n]) <==> Reaches(g, root, o) && Linked(g, o, n) {
        OriginsArePredecessors(g, root, n, o);
      }
      var preds := ConvertPredecessorSetsToVectors(g, root, postOrder, predecessorSets, index);
      NumbersAreNumbered(g, root, postOrder, preds);
      var doms := ComputeDominators(preds);
      tree := new DominatorTree(postOrder, index, doms[..], g, root, preds);
    }

    /** Nothing for unreachable nodes, the root for itself, and for every other node its one immediate dominator. */
    function GetImmediateDominator(node: Node): (r: Option<Node>)
      requires Valid()
      ensures r == None <==> !Reaches(g, root, node)
      ensures r.Some? && node == root ==> r.value == root
      ensures r.Some? && node != root ==> IsImmediate(g, root, node, r.value)
    {
      if node !in nodeToPostOrderIndex then None
      else
        var idx := nodeToPostOrderIndex[node];
        assert postOrder[idx] == node;
        Some(postOrder[doms[idx]])
    }
  }
}
