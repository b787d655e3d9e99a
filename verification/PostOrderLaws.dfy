/**
 What the depth-first search reports: every node and edge how often, and in which order.
 */
module PostOrderLaws {
  import opened Graphs
  import opened PostOrders

  /** How often a call occurs. */
  ghost function Count(log: seq<Event>, call: Event): nat {
    multiset(log)[call]
  }

  ghost function NodeCount(log: seq<Event>, m: Node): nat {
    Count(log, OnNode(m))
  }

  ghost function EdgeCount(log: seq<Event>, m: Node, e: Edge): nat {
    Count(log, OnEdge(m, e))
  }

  lemma CountAppend(a: seq<Event>, b: seq<Event>, call: Event)
    ensures Count(a + b, call) == Count(a, call) + Count(b, call)
  {
  }

  lemma EdgeCountAppend(a: seq<Event>, b: seq<Event>, m: Node, e: Edge)
    ensures EdgeCount(a + b, m, e) == EdgeCount(a, m, e) + EdgeCount(b, m, e)
  {
  }

  lemma NodeCountAppend(a: seq<Event>, b: seq<Event>, m: Node)
    ensures NodeCount(a + b, m) == NodeCount(a, m) + NodeCount(b, m)
  {
  }

  lemma CountOne(first: Event, call: Event)
    ensures Count([first], call) == One(first == call)
  {
  }

  lemma CountFirst(first: Event, rest: seq<Event>, call: Event)
    ensures Count([first] + rest, call) == One(first == call) + Count(rest, call)
  {
  }

  lemma CountThree(first: Event, sub: seq<Event>, rest: seq<Event>, call: Event)
    ensures Count([first] + sub + rest, call) == One(first == call) + Count(sub, call) + Count(rest, call)
  {
  }

  lemma CopiesNone(edges: seq<Edge>, e: Edge)
    requires edges == []
    ensures Copies(edges, e) == 0
  {
  }

  lemma CopiesLast(edges: seq<Edge>, k: nat, e: Edge)
    requires 0 < k <= |edges|
    ensures Copies(edges[..k], e) == Copies(edges[..k - 1], e) + One(edges[k - 1] == e)
    ensures Copies(edges[..|edges|], e) == Copies(edges, e)
  {
    assert edges[..k] == edges[..k - 1] + [edges[k - 1]];
    assert edges[..|edges|] == edges;
  }

  ghost function One(b: bool): nat {
    if b then 1 else 0
  }

  // ---------------------------------------------------------------------------
  // One visit
  // ---------------------------------------------------------------------------

  lemma {:induction false} VisitNodeCount(g: Graph, seen: set<Node>, n: Node, k: nat, m: Node)
    requires Closed(g) && n in g && k <= |g[n]| && n in seen
    ensures var r := Visit(g, seen, n, k);
            NodeCount(r.log, m) == One(m in r.seen && m !in seen) + One(m == n)
    decreases g.Keys - seen, k
  {
    hide Count;
    if k == 0 {
      CountOne(OnNode(n), OnNode(m));
    } else {
      var e := g[n][k - 1];
      var w := e.referent;
      if w in seen {
        VisitNodeCount(g, seen, n, k - 1, m);
        CountFirst(OnEdge(n, e), Visit(g, seen, n, k - 1).log, OnNode(m));
      } else {
        var sub := Visit(g, seen + {w}, w, |g[w]|);
        VisitNodeCount(g, seen + {w}, w, |g[w]|, m);
        VisitNodeCount(g, sub.seen, n, k - 1, m);
        CountThree(OnEdge(n, e), sub.log, Visit(g, sub.seen, n, k - 1).log, OnNode(m));
      }
    }
  }

  lemma {:induction false} VisitEdgeCount(g: Graph, seen: set<Node>, n: Node, k: nat, m: Node, e: Edge)
    requires Closed(g) && n in g && k <= |g[n]| && n in seen && m in g
    ensures var r := Visit(g, seen, n, k);
            EdgeCount(r.log, m, e) == (if m in r.seen && m !in seen then Copies(g[m], e) else 0)
                                      + (if m == n then Copies(g[n][..k], e) else 0)
    decreases g.Keys - seen, k
  {
    hide Count, Copies;
    if k == 0 {
      CountOne(OnNode(n), OnEdge(m, e));
      CopiesNone(g[n][..0], e);
    } else {
      var d := g[n][k - 1];
      var w := d.referent;
      CopiesLast(g[n], k, e);
      if w in seen {
        VisitEdgeCount(g, seen, n, k - 1, m, e);
        CountFirst(OnEdge(n, d), Visit(g, seen, n, k - 1).log, OnEdge(m, e));
      } else {
        var sub := Visit(g, seen + {w}, w, |g[w]|);
        assert g[w][..|g[w]|] == g[w];
        VisitEdgeCount(g, seen + {w}, w, |g[w]|, m, e);
        VisitEdgeCount(g, sub.seen, n, k - 1, m, e);
        CountThree(OnEdge(n, d), sub.log, Visit(g, sub.seen, n, k - 1).log, OnEdge(m, e));
      }
    }
  }

  lemma {:induction false} VisitReaches(g: Graph, seen: set<Node>, n: Node, k: nat, m: Node)
    requires Closed(g) && n in g && k <= |g[n]|
    requires m in Visit(g, seen, n, k).seen && m !in seen
    ensures Reaches(g, n, m)
    decreases g.Keys - seen, k
  {
    if k > 0 {
      var w := g[n][k - 1].referent;
      if w in seen {
        VisitReaches(g, seen, n, k - 1, m);
      } else {
        var sub := Visit(g, seen + {w}, w, |g[w]|);
        assert Linked(g, n, w);
        ReachesLinked(g, n, w);
        if m !in sub.seen {
          VisitReaches(g, sub.seen, n, k - 1, m);
        } else if m != w {
          VisitReaches(g, seen + {w}, w, |g[w]|, m);
          ReachesTransitive(g, n, w, m);
        }
      }
    }
  }

  /** Every edge leaving `n` among the first `k`, or leaving a newly seen node, leads to a seen node. */
  ghost predicate FollowedAll(g: Graph, seen: set<Node>, n: Node, k: nat, r: Outcome)
    requires n in g && k <= |g[n]|
  {
    && (forall i :: 0 <= i < k ==> g[n][i].referent in r.seen)
    && (forall a, b :: a in r.seen && a !in seen && Linked(g, a, b) ==> b in r.seen)
  }

  lemma {:induction false} VisitFollowsAll(g: Graph, seen: set<Node>, n: Node, k: nat)
    requires Closed(g) && n in g && k <= |g[n]|
    ensures FollowedAll(g, seen, n, k, Visit(g, seen, n, k))
    decreases g.Keys - seen, k
  {
    if k > 0 {
      var w := g[n][k - 1].referent;
      if w in seen {
        VisitFollowsAll(g, seen, n, k - 1);
      } else {
        var sub := Visit(g, seen + {w}, w, |g[w]|);
        VisitFollowsAll(g, seen + {w}, w, |g[w]|);
        VisitFollowsAll(g, sub.seen, n, k - 1);
      }
    }
  }

  // ---------------------------------------------------------------------------
  // All starts
  // ---------------------------------------------------------------------------

  lemma {:induction false} StartsNodeCount(g: Graph, seen: set<Node>, starts: seq<Node>, m: Node)
    requires Closed(g) && forall s :: s in starts ==> s in g && s in seen
    ensures var r := VisitStarts(g, seen, starts);
            NodeCount(r.log, m) == One(m in r.seen && m !in seen) + multiset(starts)[m]
    decreases |starts|
  {
    if starts != [] {
      var s, below := starts[|starts| - 1], starts[..|starts| - 1];
      assert starts == below + [s];
      VisitNodeCount(g, seen, s, |g[s]|, m);
      StartsNodeCount(g, Visit(g, seen, s, |g[s]|).seen, below, m);
    }
  }

  /** Each of a node's edges is reported once for each report of the node. */
  ghost predicate EdgesPerNode(g: Graph, log: seq<Event>, m: Node, e: Edge)
    requires m in g
  {
    EdgeCount(log, m, e) == NodeCount(log, m) * Copies(g[m], e)
  }

  lemma EdgesPerNodeConcat(g: Graph, a: seq<Event>, b: seq<Event>, m: Node, e: Edge)
    requires m in g && EdgesPerNode(g, a, m, e) && EdgesPerNode(g, b, m, e)
    ensures EdgesPerNode(g, a + b, m, e)
  {
    hide EdgeCount, NodeCount, Copies;
    EdgeCountAppend(a, b, m, e);
    NodeCountAppend(a, b, m);
    ProductOfSum(NodeCount(a, m), NodeCount(b, m), Copies(g[m], e));
  }

  lemma {:induction false} StartsEdgeCount(g: Graph, seen: set<Node>, starts: seq<Node>, m: Node, e: Edge)
    requires Closed(g) && (forall s :: s in starts ==> s in g && s in seen) && m in g
    ensures EdgesPerNode(g, VisitStarts(g, seen, starts).log, m, e)
    decreases |starts|
  {
    if starts != [] {
      hide EdgesPerNode, Visit;
      var s, below := starts[|starts| - 1], starts[..|starts| - 1];
      var first := Visit(g, seen, s, |g[s]|);
      VisitEdgesPerNode(g, seen, s, m, e);
      StartsEdgeCount(g, first.seen, below, m, e);
      EdgesPerNodeConcat(g, first.log, VisitStarts(g, first.seen, below).log, m, e);
    }
  }

  lemma ProductOfSum(a: nat, b: nat, x: nat)
    ensures (a + b) * x == a * x + b * x
  {
  }

  lemma VisitEdgesPerNode(g: Graph, seen: set<Node>, n: Node, m: Node, e: Edge)
    requires Closed(g) && n in g && n in seen && m in g
    ensures EdgesPerNode(g, Visit(g, seen, n, |g[n]|).log, m, e)
  {
    hide EdgeCount, NodeCount, Copies, Visit, One;
    VisitNodeCount(g, seen, n, |g[n]|, m);
    assert g[n][..|g[n]|] == g[n];
    VisitEdgeCount(g, seen, n, |g[n]|, m, e);
    OneOrTwo(m in Visit(g, seen, n, |g[n]|).seen && m !in seen, m == n, Copies(g[m], e));
  }

  lemma OneOrTwo(a: bool, b: bool, x: nat)
    ensures (One(a) + One(b)) * x == (if a then x else 0) + (if b then x else 0)
  {
  }

  lemma {:induction false} StartsReach(g: Graph, seen: set<Node>, starts: seq<Node>, m: Node)
    requires Closed(g) && forall s :: s in starts ==> s in g
    requires m in VisitStarts(g, seen, starts).seen && m !in seen
    ensures ReachableFrom(g, starts, m)
    decreases |starts|
  {
    var s, below := starts[|starts| - 1], starts[..|starts| - 1];
    var first := Visit(g, seen, s, |g[s]|);
    if m in first.seen {
      VisitReaches(g, seen, s, |g[s]|, m);
    } else {
      StartsReach(g, first.seen, below, m);
      var a :| a in below && Reaches(g, a, m);
    }
  }

  lemma {:induction false} StartsFollowAll(g: Graph, seen: set<Node>, starts: seq<Node>)
    requires Closed(g) && forall s :: s in starts ==> s in g
    ensures var r := VisitStarts(g, seen, starts);
            forall a, b :: (a in starts || (a in r.seen && a !in seen)) && Linked(g, a, b) ==> b in r.seen
    decreases |starts|
  {
    if starts != [] {
      var s, below := starts[|starts| - 1], starts[..|starts| - 1];
      var first := Visit(g, seen, s, |g[s]|);
      VisitFollowsAll(g, seen, s, |g[s]|);
      StartsFollowAll(g, first.seen, below);
      assert starts == below + [s];
    }
  }

  /** The nodes seen in the end are exactly the nodes reachable from the starts. */
  lemma SeenIsReachable(g: Graph, starts: seq<Node>, m: Node)
    requires Closed(g) && forall s :: s in starts ==> s in g
    ensures m in DepthFirst(g, starts).seen <==> ReachableFrom(g, starts, m)
  {
    var r := DepthFirst(g, starts);
    if m in r.seen {
      if m in starts {
        ReachesSelf(g, m);
      } else {
        StartsReach(g, Elements(starts), starts, m);
      }
    }
    if ReachableFrom(g, starts, m) {
      var a :| a in starts && Reaches(g, a, m);
      var p :| PathFrom(g, a, m, p);
      StartsFollowAll(g, Elements(starts), starts);
      ClosedSetKeepsPath(g, r.seen, p);
    }
  }

  /**
   How often each node is reported: a start once for every time it was added, any other
   node once if it is reachable and never otherwise.
   */
  lemma NodesReported(g: Graph, starts: seq<Node>, m: Node)
    requires Closed(g) && forall s :: s in starts ==> s in g
    ensures NodeCount(DepthFirst(g, starts).log, m)
         == if m in starts then multiset(starts)[m] else One(ReachableFrom(g, starts, m))
  {
    StartsNodeCount(g, Elements(starts), starts, m);
    SeenIsReachable(g, starts, m);
  }

  /** Every report of a node comes with one report of each of its outgoing edges, parallel edges counted. */
  lemma EdgesReported(g: Graph, starts: seq<Node>, m: Node, e: Edge)
    requires Closed(g) && (forall s :: s in starts ==> s in g) && m in g
    ensures var log := DepthFirst(g, starts).log;
            EdgeCount(log, m, e) == NodeCount(log, m) * Copies(g[m], e)
  {
    StartsEdgeCount(g, Elements(starts), starts, m, e);
  }

  ghost predicate OnceForEachReachable(g: Graph, starts: seq<Node>, log: seq<Event>) {
    forall m :: NodeCount(log, m) == One(ReachableFrom(g, starts, m))
  }

  lemma DistinctCounts(s: seq<Node>)
    ensures Distinct(s) <==> forall m :: multiset(s)[m] <= 1
    decreases |s|
  {
    if s != [] {
      var t, x := s[..|s| - 1], s[|s| - 1];
      DistinctCounts(t);
      assert s == t + [x];
      if Distinct(s) {
        assert x !in t;
      } else if forall m :: multiset(s)[m] <= 1 {
        assert multiset(s)[x] == multiset(t)[x] + 1;
        assert x !in multiset(t);
        assert forall m :: multiset(t)[m] <= multiset(s)[m];
      }
    }
  }

  /**
   The header promises one report for each node reachable from the starts. That holds
   exactly when no start was added twice.
   */
  lemma OncePerNodeIffDistinctStarts(g: Graph, starts: seq<Node>)
    requires Closed(g) && forall s :: s in starts ==> s in g
    ensures OnceForEachReachable(g, starts, DepthFirst(g, starts).log) <==> Distinct(starts)
  {
    var log := DepthFirst(g, starts).log;
    DistinctCounts(starts);
    forall m ensures m in starts ==> ReachableFrom(g, starts, m) {
      ReachesSelf(g, m);
    }
    forall m
      ensures NodeCount(log, m) == if m in starts then multiset(starts)[m] else One(ReachableFrom(g, starts, m))
    {
      NodesReported(g, starts, m);
    }
    assert forall m :: m in starts <==> m in multiset(starts);
  }

  // ---------------------------------------------------------------------------
  // Order
  // ---------------------------------------------------------------------------

  /**
   At every report of a node, each out-neighbour was reported before, or lies in `excused`,
   or can reach the node (the edge between them is then on a cycle).
   */
  ghost predicate NeighboursFirst(g: Graph, done: set<Node>, excused: set<Node>, log: seq<Event>) {
    forall j, v :: 0 <= j < |log| && log[j].OnNode? && Linked(g, log[j].node, v) ==>
                     OnNode(v) in log[..j] || v in done || v in excused || Reaches(g, v, log[j].node)
  }

  lemma NeighboursFirstAppend(g: Graph, done: set<Node>, excused: set<Node>, a: seq<Event>, b: seq<Event>, done': set<Node>)
    requires NeighboursFirst(g, done, excused, a) && NeighboursFirst(g, done', excused, b)
    requires forall v :: v in done' ==> v in done || OnNode(v) in a
    ensures NeighboursFirst(g, done, excused, a + b)
  {
    var log := a + b;
    forall j, v | 0 <= j < |log| && log[j].OnNode? && Linked(g, log[j].node, v)
      ensures OnNode(v) in log[..j] || v in done || v in excused || Reaches(g, v, log[j].node)
    {
      if j < |a| {
        assert log[..j] == a[..j];
      } else {
        assert log[..j] == a + b[..j - |a|];
      }
    }
  }

  /**
   `open` holds the stack's nodes, all of which reach `n`; the other seen nodes are done or excused.
   The edges of `n` from the `k`-th on have been followed already.
   */
  lemma {:induction false} VisitOrder(g: Graph, seen: set<Node>, n: Node, k: nat,
                                      open: set<Node>, done: set<Node>, excused: set<Node>)
    requires Closed(g) && n in g && k <= |g[n]| && n in seen
    requires seen <= open + done + excused
    requires forall a :: a in open ==> Reaches(g, a, n)
    requires forall i :: k <= i < |g[n]| ==> g[n][i].referent in open + done + excused
    ensures NeighboursFirst(g, done, excused, Visit(g, seen, n, k).log)
    decreases g.Keys - seen, k
  {
    if k == 0 {
      assert forall v :: Linked(g, n, v) ==> v in open + done + excused;
    } else {
      var e := g[n][k - 1];
      var w := e.referent;
      var head := [OnEdge(n, e)];
      assert Linked(g, n, w);
      if w in seen {
        VisitOrder(g, seen, n, k - 1, open, done, excused);
        NeighboursFirstAppend(g, done, excused, head, Visit(g, seen, n, k - 1).log, done);
      } else {
        var sub := Visit(g, seen + {w}, w, |g[w]|);
        forall a | a in open + {w} ensures Reaches(g, a, w) {
          if a == w { ReachesSelf(g, w); } else { ReachesStep(g, a, n, w); }
        }
        VisitOrder(g, seen + {w}, w, |g[w]|, open + {w}, done, excused);
        var done' := done + (sub.seen - seen);
        forall v | v in done' ensures v in done || OnNode(v) in sub.log {
          VisitNodeCount(g, seen + {w}, w, |g[w]|, v);
        }
        VisitOrder(g, sub.seen, n, k - 1, open, done', excused);
        var rest := Visit(g, sub.seen, n, k - 1);
        NeighboursFirstAppend(g, done, excused, sub.log, rest.log, done');
        NeighboursFirstAppend(g, done, excused, head, sub.log + rest.log, done);
        assert head + sub.log + rest.log == head + (sub.log + rest.log);
      }
    }
  }

  /** `v` is a start that was still waiting on the stack while `u` was visited from a later start. */
  ghost predicate Waiting(g: Graph, starts: seq<Node>, v: Node, u: Node) {
    exists a, b :: 0 <= a < b < |starts| && starts[a] == v && Reaches(g, starts[b], u)
  }

  ghost predicate NeighboursFirstOrWaiting(g: Graph, starts: seq<Node>, done: set<Node>, log: seq<Event>) {
    forall j, v :: 0 <= j < |log| && log[j].OnNode? && Linked(g, log[j].node, v) ==>
                     OnNode(v) in log[..j] || v in done || Waiting(g, starts, v, log[j].node) || Reaches(g, v, log[j].node)
  }

  lemma WaitingAppend(g: Graph, starts: seq<Node>, done: set<Node>, a: seq<Event>, b: seq<Event>, done': set<Node>)
    requires NeighboursFirstOrWaiting(g, starts, done, a) && NeighboursFirstOrWaiting(g, starts, done', b)
    requires forall v :: v in done' ==> v in done || OnNode(v) in a
    ensures NeighboursFirstOrWaiting(g, starts, done, a + b)
  {
    var log := a + b;
    forall j, v | 0 <= j < |log| && log[j].OnNode? && Linked(g, log[j].node, v)
      ensures OnNode(v) in log[..j] || v in done || Waiting(g, starts, v, log[j].node) || Reaches(g, v, log[j].node)
    {
      if j < |a| {
        assert log[..j] == a[..j];
      } else {
        assert log[..j] == a + b[..j - |a|];
      }
    }
  }

  /** A visit reports its node and the newly seen nodes, which it reaches, and no other. */
  lemma VisitReports(g: Graph, seen: set<Node>, n: Node, m: Node)
    requires Closed(g) && n in g && n in seen
    ensures var r := Visit(g, seen, n, |g[n]|);
            && (OnNode(m) in r.log <==> m == n || (m in r.seen && m !in seen))
            && (OnNode(m) in r.log ==> Reaches(g, n, m))
  {
    var r := Visit(g, seen, n, |g[n]|);
    VisitNodeCount(g, seen, n, |g[n]|, m);
    assert OnNode(m) in r.log <==> OnNode(m) in multiset(r.log);
    if m == n {
      ReachesSelf(g, n);
    } else if m in r.seen && m !in seen {
      VisitReaches(g, seen, n, |g[n]|, m);
    }
  }

  lemma {:induction false} StartsOrder(g: Graph, seen: set<Node>, starts: seq<Node>, done: set<Node>)
    requires Closed(g) && forall s :: s in starts ==> s in g && s in seen
    requires seen <= done + Elements(starts)
    ensures NeighboursFirstOrWaiting(g, starts, done, VisitStarts(g, seen, starts).log)
    decreases |starts|
  {
    if starts != [] {
      var s, below := starts[|starts| - 1], starts[..|starts| - 1];
      assert starts == below + [s];
      var first := Visit(g, seen, s, |g[s]|);
      var rest := VisitStarts(g, first.seen, below);
      ReachesSelf(g, s);
      VisitOrder(g, seen, s, |g[s]|, {s}, done, Elements(below));
      forall j | 0 <= j < |first.log| && first.log[j].OnNode? ensures Reaches(g, s, first.log[j].node) {
        VisitReports(g, seen, s, first.log[j].node);
      }
      FirstWaits(g, starts, done, first.log);
      var done' := done + {s} + (first.seen - seen);
      forall v | v in done' ensures v in done || OnNode(v) in first.log {
        VisitReports(g, seen, s, v);
      }
      StartsOrder(g, first.seen, below, done');
      MoreStartsWait(g, below, s, done', rest.log);
      WaitingAppend(g, starts, done, first.log, rest.log, done');
    }
  }

  lemma FirstWaits(g: Graph, starts: seq<Node>, done: set<Node>, log: seq<Event>)
    requires starts != [] && NeighboursFirst(g, done, Elements(starts[..|starts| - 1]), log)
    requires forall j :: 0 <= j < |log| && log[j].OnNode? ==> Reaches(g, starts[|starts| - 1], log[j].node)
    ensures NeighboursFirstOrWaiting(g, starts, done, log)
  {
    forall j, v | 0 <= j < |log| && log[j].OnNode? && Linked(g, log[j].node, v)
      ensures OnNode(v) in log[..j] || v in done || Waiting(g, starts, v, log[j].node) || Reaches(g, v, log[j].node)
    {
      if v in Elements(starts[..|starts| - 1]) {
        var a :| 0 <= a < |starts| - 1 && starts[a] == v;
        assert Waiting(g, starts, v, log[j].node);
      }
    }
  }

  lemma MoreStartsWait(g: Graph, starts: seq<Node>, s: Node, done: set<Node>, log: seq<Event>)
    requires NeighboursFirstOrWaiting(g, starts, done, log)
    ensures NeighboursFirstOrWaiting(g, starts + [s], done, log)
  {
    forall v, u | Waiting(g, starts, v, u) ensures Waiting(g, starts + [s], v, u) {
      var a, b :| 0 <= a < b < |starts| && starts[a] == v && Reaches(g, starts[b], u);
      assert (starts + [s])[a] == v && (starts + [s])[b] == starts[b];
    }
  }

  /**
   When a node is reported, each of its out-neighbours has been reported before it, can
   reach it, or is a start added before one that reaches it. In particular, from a single
   start only edges on cycles can lead forward in the order of reports.
   */
  lemma ReportOrder(g: Graph, starts: seq<Node>)
    requires Closed(g) && forall s :: s in starts ==> s in g
    ensures NeighboursFirstOrWaiting(g, starts, {}, DepthFirst(g, starts).log)
  {
    StartsOrder(g, Elements(starts), starts, {});
  }

  /** Every node is reported after all its out-neighbours. */
  ghost predicate ReverseTopological(g: Graph, log: seq<Event>) {
    forall j, v :: 0 <= j < |log| && log[j].OnNode? && Linked(g, log[j].node, v) ==> OnNode(v) in log[..j]
  }

  lemma {:induction false} DescendantsFirst(g: Graph, log: seq<Event>, j: nat, p: seq<Node>)
    requires ReverseTopological(g, log) && j < |log| && IsPath(g, p) && log[j] == OnNode(p[0])
    ensures OnNode(p[|p| - 1]) in log[..j + 1]
    decreases |p|
  {
    if |p| > 1 {
      var q := p[..|p| - 1];
      DescendantsFirst(g, log, j, q);
      var i :| 0 <= i < j + 1 && log[i] == OnNode(q[|q| - 1]);
      assert OnNode(p[|p| - 1]) in log[..i];
    }
  }

  /** A later start is reported before an earlier one. */
  lemma {:induction false} LaterStartFirst(g: Graph, seen: set<Node>, starts: seq<Node>, a: nat, b: nat) returns (j: nat)
    requires Closed(g) && forall s :: s in starts ==> s in g && s in seen
    requires Distinct(starts) && a < b < |starts|
    ensures var log := VisitStarts(g, seen, starts).log;
            j < |log| && log[j] == OnNode(starts[b]) && OnNode(starts[a]) !in log[..j + 1]
    decreases |starts|
  {
    var s, below := starts[|starts| - 1], starts[..|starts| - 1];
    var first := Visit(g, seen, s, |g[s]|);
    var rest := VisitStarts(g, first.seen, below);
    assert s in starts && starts[a] in starts;
    VisitReports(g, seen, s, starts[a]);
    assert OnNode(starts[a]) !in first.log;
    if b == |starts| - 1 {
      VisitReports(g, seen, s, s);
      j :| 0 <= j < |first.log| && first.log[j] == OnNode(s);
      assert (first.log + rest.log)[..j + 1] == first.log[..j + 1];
    } else {
      var i := LaterStartFirst(g, first.seen, below, a, b);
      j := |first.log| + i;
      assert (first.log + rest.log)[..j + 1] == first.log + rest.log[..i + 1];
    }
  }

  /**
   On an acyclic graph with distinct starts, the reports come in reverse topological order
   exactly when no start reaches one that was added before it.
   */
  lemma ReverseTopologicalIff(g: Graph, starts: seq<Node>)
    requires Closed(g) && (forall s :: s in starts ==> s in g) && Acyclic(g) && Distinct(starts)
    ensures ReverseTopological(g, DepthFirst(g, starts).log)
       <==> forall a, b :: 0 <= a < b < |starts| ==> !Reaches(g, starts[b], starts[a])
  {
    var log := DepthFirst(g, starts).log;
    if forall a, b :: 0 <= a < b < |starts| ==> !Reaches(g, starts[b], starts[a]) {
      ReportOrder(g, starts);
      forall j, v | 0 <= j < |log| && log[j].OnNode? && Linked(g, log[j].node, v) ensures OnNode(v) in log[..j] {
        if Waiting(g, starts, v, log[j].node) {
          var a, b :| 0 <= a < b < |starts| && starts[a] == v && Reaches(g, starts[b], log[j].node);
          ReachesStep(g, starts[b], log[j].node, v);
        }
      }
    }
    if ReverseTopological(g, log) {
      forall a, b | 0 <= a < b < |starts| ensures !Reaches(g, starts[b], starts[a]) {
        if Reaches(g, starts[b], starts[a]) {
          var p :| PathFrom(g, starts[b], starts[a], p);
          var j := LaterStartFirst(g, Elements(starts), starts, a, b);
          DescendantsFirst(g, log, j, p);
        }
      }
    }
  }

  // ---------------------------------------------------------------------------
  // The order of one node's edges
  // ---------------------------------------------------------------------------

  /** The edges of `m` reported, in order. */
  ghost function FollowedFrom(log: seq<Event>, m: Node): seq<Edge> {
    if log == [] then []
    else
      var call := log[|log| - 1];
      FollowedFrom(log[..|log| - 1], m) + (if call.OnEdge? && call.origin == m then [call.edge] else [])
  }

  ghost function Backwards(edges: seq<Edge>): seq<Edge> {
    if edges == [] then [] else [edges[|edges| - 1]] + Backwards(edges[..|edges| - 1])
  }

  ghost function Repeat(edges: seq<Edge>, times: nat): seq<Edge> {
    if times == 0 then [] else Repeat(edges, times - 1) + edges
  }

  lemma {:induction false} FollowedConcat(a: seq<Event>, b: seq<Event>, m: Node)
    ensures FollowedFrom(a + b, m) == FollowedFrom(a, m) + FollowedFrom(b, m)
    decreases |b|
  {
    if b == [] {
      assert a + b == a;
    } else {
      FollowedConcat(a, b[..|b| - 1], m);
      assert (a + b)[..|a + b| - 1] == a + b[..|b| - 1];
    }
  }

  lemma FollowedOne(call: Event, m: Node)
    ensures FollowedFrom([call], m) == if call.OnEdge? && call.origin == m then [call.edge] else []
  {
    assert [call][..0] == [];
  }

  lemma BackwardsNext(edges: seq<Edge>, k: nat)
    requires 0 < k <= |edges|
    ensures Backwards(edges[..k]) == [edges[k - 1]] + Backwards(edges[..k - 1])
    ensures edges[..|edges|] == edges
  {
    assert edges[..k][..k - 1] == edges[..k - 1];
  }

  /** The edges of `m` that a visit reports: all if it newly sees `m`, the first `k` if it visits `m` itself. */
  ghost function FollowedInVisit(g: Graph, seen: set<Node>, n: Node, k: nat, m: Node): seq<Edge>
    requires Closed(g) && n in g && k <= |g[n]| && m in g
  {
    if m == n then Backwards(g[n][..k])
    else if m in Visit(g, seen, n, k).seen && m !in seen then Backwards(g[m])
    else []
  }

  lemma VisitFollowsStep(g: Graph, seen: set<Node>, n: Node, k: nat, m: Node)
    requires Closed(g) && n in g && 0 < k <= |g[n]| && n in seen && m in g && g[n][k - 1].referent !in seen
    ensures var w := g[n][k - 1].referent;
            var sub := Visit(g, seen + {w}, w, |g[w]|);
            FollowedInVisit(g, seen, n, k, m)
              == (if n == m then [g[n][k - 1]] else []) + FollowedInVisit(g, seen + {w}, w, |g[w]|, m)
                 + FollowedInVisit(g, sub.seen, n, k - 1, m)
  {
    hide Backwards;
    BackwardsNext(g[n], k);
    var w := g[n][k - 1].referent;
    assert g[w][..|g[w]|] == g[w];
  }

  lemma {:induction false} VisitFollows(g: Graph, seen: set<Node>, n: Node, k: nat, m: Node)
    requires Closed(g) && n in g && k <= |g[n]| && n in seen && m in g
    ensures FollowedFrom(Visit(g, seen, n, k).log, m) == FollowedInVisit(g, seen, n, k, m)
    decreases g.Keys - seen, k
  {
    hide FollowedFrom, Backwards;
    if k == 0 {
      FollowedOne(OnNode(n), m);
      BackwardsNone(g[n][..0]);
    } else {
      var e := g[n][k - 1];
      var w := e.referent;
      FollowedOne(OnEdge(n, e), m);
      if w in seen {
        BackwardsNext(g[n], k);
        VisitFollows(g, seen, n, k - 1, m);
        FollowedConcat([OnEdge(n, e)], Visit(g, seen, n, k - 1).log, m);
      } else {
        hide FollowedInVisit;
        var sub := Visit(g, seen + {w}, w, |g[w]|);
        VisitFollows(g, seen + {w}, w, |g[w]|, m);
        VisitFollows(g, sub.seen, n, k - 1, m);
        VisitFollowsStep(g, seen, n, k, m);
        FollowedConcat([OnEdge(n, e)] + sub.log, Visit(g, sub.seen, n, k - 1).log, m);
        FollowedConcat([OnEdge(n, e)], sub.log, m);
      }
    }
  }

  lemma BackwardsNone(edges: seq<Edge>)
    requires edges == []
    ensures Backwards(edges) == []
  {
  }

  lemma RepeatMore(edges: seq<Edge>, times: nat)
    ensures Repeat(edges, times + 1) == Repeat(edges, times) + edges == edges + Repeat(edges, times)
  {
    if times > 0 {
      RepeatMore(edges, times - 1);
    }
  }

  lemma VisitFollowsPerNode(g: Graph, seen: set<Node>, s: Node, m: Node)
    requires Closed(g) && s in g && s in seen && m in g
    ensures var log := Visit(g, seen, s, |g[s]|).log;
            NodeCount(log, m) <= 1 && FollowedFrom(log, m) == Repeat(Backwards(g[m]), NodeCount(log, m))
  {
    VisitFollows(g, seen, s, |g[s]|, m);
    VisitNodeCount(g, seen, s, |g[s]|, m);
    assert g[s][..|g[s]|] == g[s];
    hide FollowedFrom, Backwards, Visit, NodeCount;
    RepeatMore(Backwards(g[m]), 0);
    assert [] + Backwards(g[m]) == Backwards(g[m]);
  }

  lemma {:induction false} StartsFollow(g: Graph, seen: set<Node>, starts: seq<Node>, m: Node)
    requires Closed(g) && (forall s :: s in starts ==> s in g && s in seen) && m in g
    ensures var log := VisitStarts(g, seen, starts).log; FollowedFrom(log, m) == Repeat(Backwards(g[m]), NodeCount(log, m))
    decreases |starts|
  {
    hide FollowedFrom, Backwards, Visit, NodeCount;
    if starts == [] {
      NothingFollowed(m);
    } else {
      var s, below := starts[|starts| - 1], starts[..|starts| - 1];
      var first := Visit(g, seen, s, |g[s]|);
      var rest := VisitStarts(g, first.seen, below).log;
      VisitFollowsPerNode(g, seen, s, m);
      StartsFollow(g, first.seen, below, m);
      FollowedConcat(first.log, rest, m);
      NodeCountAppend(first.log, rest, m);
      RepeatMore(Backwards(g[m]), NodeCount(rest, m));
      if NodeCount(first.log, m) == 0 {
        assert [] + FollowedFrom(rest, m) == FollowedFrom(rest, m);
      } else {
        RepeatMore(Backwards(g[m]), 0);
        assert [] + Backwards(g[m]) == Backwards(g[m]);
      }
    }
  }

  lemma NothingFollowed(m: Node)
    ensures FollowedFrom([], m) == [] && NodeCount([], m) == 0
  {
  }

  /** Each report of a node comes with all its edges, followed from the last to the first. */
  lemma EdgesLastToFirst(g: Graph, starts: seq<Node>, m: Node)
    requires Closed(g) && (forall s :: s in starts ==> s in g) && m in g
    ensures var log := DepthFirst(g, starts).log; FollowedFrom(log, m) == Repeat(Backwards(g[m]), NodeCount(log, m))
  {
    StartsFollow(g, Elements(starts), starts, m);
  }

  lemma {:induction false} BackwardsAt(edges: seq<Edge>, i: nat)
    requires i < |edges|
    ensures |Backwards(edges)| == |edges| && Backwards(edges)[i] == edges[|edges| - 1 - i]
    decreases |edges|
  {
    if |edges| > 1 {
      BackwardsAt(edges[..|edges| - 1], if i > 0 then i - 1 else 0);
    }
  }

  // ---------------------------------------------------------------------------
  // Starts for which the promises fail
  // ---------------------------------------------------------------------------

  /** A start added twice is reported twice. */
  lemma StartAddedTwice()
    ensures var g: Graph := map[0 := []];
            DepthFirst(g, [0, 0]).log == [OnNode(0), OnNode(0)] && !OnceForEachReachable(g, [0, 0], DepthFirst(g, [0, 0]).log)
  {
    var g: Graph := map[0 := []];
    assert [0, 0][..1] == [0];
    assert VisitStarts(g, {0}, [0]) == Outcome([OnNode(0)], {0});
    assert Elements([0, 0]) == {0};
    assert [0, 0][0] == [0, 0][1];
    OncePerNodeIffDistinctStarts(g, [0, 0]);
  }

  /** A start that reaches one added before it is reported too early. */
  lemma LaterStartTooEarly()
    ensures var g: Graph := map[0 := [], 1 := [Edge("down", 0)]];
            && DepthFirst(g, [0, 1]).log == [OnEdge(1, Edge("down", 0)), OnNode(1), OnNode(0)]
            && !ReverseTopological(g, DepthFirst(g, [0, 1]).log)
  {
    var g: Graph := map[0 := [], 1 := [Edge("down", 0)]];
    var e := Edge("down", 0);
    var seen := {0, 1};
    assert Elements([0, 1]) == seen;
    assert [0, 1][..1] == [0];
    assert Visit(g, seen, 1, 0) == Outcome([OnNode(1)], seen);
    assert Visit(g, seen, 1, 1).log == [OnEdge(1, e)] + [OnNode(1)];
    assert VisitStarts(g, seen, [0]) == Outcome([OnNode(0)], seen);
    var log := DepthFirst(g, [0, 1]).log;
    assert log == [OnEdge(1, e)] + [OnNode(1)] + [OnNode(0)];
    assert g[1][0].referent == 0 && Linked(g, 1, 0);
    assert log[1] == OnNode(1) && log[..1] == [OnEdge(1, e)];
  }
}
