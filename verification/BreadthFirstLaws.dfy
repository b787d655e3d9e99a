/**
 What the runs of a breadth-first search promise, whatever the handler: how often each
 edge is reported, and which nodes are explored.
 */
module BreadthFirstLaws {
  import opened Graphs
  import opened BreadthFirsts

  // ---------------------------------------------------------------------------
  // The run is unique, and complete runs report each queued node's edges
  // ---------------------------------------------------------------------------

  ghost function Reported(log: seq<Call>): (r: seq<(Node, Edge)>)
    ensures |r| == |log|
  {
    seq(|log|, i requires 0 <= i < |log| => (log[i].origin, log[i].edge))
  }

  /** The queue and the list of edges to report only grow. */
  lemma EdgesOfGrow<D>(s: Search<D>, log: seq<Call>)
    requires log != [] && Within(s.g, Queued(s, log))
    ensures Within(s.g, Queued(s, Front(log)))
    ensures EdgesOf(s.g, Queued(s, Front(log))) <= EdgesOf(s.g, Queued(s, log))
  {
    var q, q' := Queued(s, Front(log)), Queued(s, log);
    assert q == q'[..|q|];
    assert forall i :: 0 <= i < |q| ==> q[i] == q'[i];
    EdgesOfPrefix(s.g, q', |q|);
  }

  lemma {:induction false} RunWithin<D>(s: Search<D>, log: seq<Call>)
    requires WellFormed(s) && IsRun(s, log)
    ensures Within(s.g, Queued(s, log))
    ensures forall i :: 0 <= i < |log| ==> log[i].origin in s.g && log[i].edge.referent in s.g
    decreases |log|
  {
    if log != [] {
      RunWithin(s, Front(log));
      EdgeComesFromQueue(s.g, Queued(s, Front(log)), |log| - 1);
      assert forall i :: 0 <= i < |log| - 1 ==> log[i] == Front(log)[i];
    }
  }

  lemma {:induction false} EdgeComesFromQueue(g: Graph, q: seq<Node>, i: nat)
    requires Closed(g) && Within(g, q) && i < |EdgesOf(g, q)|
    ensures var (o, e) := EdgesOf(g, q)[i]; o in q && o in g && e in g[o] && e.referent in g && Linked(g, o, e.referent)
    decreases |q|
  {
    var below, n := q[..|q| - 1], q[|q| - 1];
    if i < |EdgesOf(g, below)| {
      EdgeComesFromQueue(g, below, i);
    } else {
      var j := i - |EdgesOf(g, below)|;
      assert EdgesOf(g, q)[i] == (n, g[n][j]);
    }
  }

  /** A run's calls report, in order, the first edges of the nodes it has queued. */
  lemma {:induction false} RunReports<D>(s: Search<D>, log: seq<Call>)
    requires WellFormed(s) && IsRun(s, log)
    ensures Within(s.g, Queued(s, log)) && Reported(log) <= EdgesOf(s.g, Queued(s, log))
    decreases |log|
  {
    RunWithin(s, log);
    if log != [] {
      RunReports(s, Front(log));
      EdgesOfGrow(s, log);
      assert Reported(log) == Reported(Front(log)) + [(Last(log).origin, Last(log).edge)];
    }
  }

  /** The law of a run leaves no choice: of two runs of one search, one continues the other. */
  lemma {:induction false} RunIsUnique<D>(s: Search<D>, a: seq<Call>, b: seq<Call>)
    requires IsRun(s, a) && IsRun(s, b) && |a| <= |b|
    ensures a == b[..|a|]
    decreases |b|
  {
    if |a| < |b| {
      RunIsUnique(s, a, Front(b));
    } else if a != [] {
      RunIsUnique(s, Front(a), Front(b));
      assert Front(a) == Front(b);
      assert a == Front(a) + [Last(a)] && b == Front(b) + [Last(b)];
    }
  }

  /**
   A complete run reports exactly the edges of the queued nodes, node after node in the
   order queued, each node's edges in their own order.
   */
  lemma CompleteRunReports<D>(s: Search<D>, log: seq<Call>)
    requires WellFormed(s) && IsRun(s, log) && Complete(s, log)
    ensures Reported(log) == EdgesOf(s.g, Queued(s, log))
  {
    RunReports(s, log);
  }

  /** A first call that goes on and leaves its referent unmarked also abandons it. */
  ghost predicate UnmarkedAbandoned<D(!new)>(h: Handler<D>) {
    forall log, data :: log != [] && Last(log).first && h(log, data).GoesOn() && !h(log, data).mark ==> h(log, data).abandon
  }

  /** Some edge of a node reachable from the starts leads to `n`. */
  ghost predicate Entered(g: Graph, starts: seq<Node>, n: Node) {
    exists a :: ReachableFrom(g, starts, a) && Linked(g, a, n)
  }

  /** A start added as visited, or one that no edge of a reachable node leads to. */
  ghost predicate EnteredNotAgain<D>(s: Search<D>, n: Node) {
    n in s.marked || !Entered(s.g, s.starts, n)
  }

  /** No node is queued twice if the starts are distinct and not entered again, and un-marked nodes are abandoned. */
  lemma {:induction false} QueuedOnce<D(!new)>(s: Search<D>, log: seq<Call>)
    requires WellFormed(s) && IsRun(s, log) && UnmarkedAbandoned(s.handler)
    requires Distinct(s.starts) && forall n :: n in s.starts ==> EnteredNotAgain(s, n)
    ensures Distinct(Queued(s, log))
    ensures forall n :: n in Queued(s, log) ==> n in Table(s, log) || n in s.starts
    decreases |log|
  {
    if log == [] {
      assert forall i :: 0 <= i < |s.starts| ==> s.starts[i] in s.starts;
    } else {
      hide Entered;
      QueuedOnce(s, Front(log));
      TableGrows(s, Front(log));
      ReferentReachable(s, log);
      var w := Last(log).edge.referent;
      assert w in s.starts ==> w in s.marked;
      assert Enqueues(s, log) ==> w !in Queued(s, Front(log));
    }
  }

  ghost function Reports(log: seq<Call>, o: Node, e: Edge): nat {
    multiset(Reported(log))[(o, e)]
  }

  lemma {:induction false} EdgesFromCount(g: Graph, n: Node, j: nat, o: Node, e: Edge)
    requires n in g && j <= |g[n]|
    ensures multiset(EdgesFrom(g, n, j))[(o, e)] == if n == o then Copies(g[n][..j], e) else 0
    decreases j
  {
    if j > 0 {
      EdgesFromCount(g, n, j - 1, o, e);
      assert EdgesFrom(g, n, j) == EdgesFrom(g, n, j - 1) + [(n, g[n][j - 1])];
      assert g[n][..j] == g[n][..j - 1] + [g[n][j - 1]];
    }
  }

  ghost function Times(q: seq<Node>, n: Node): nat {
    multiset(q)[n]
  }

  lemma TimesLast(q: seq<Node>, o: Node)
    requires q != []
    ensures Times(q, o) == Times(q[..|q| - 1], o) + (if q[|q| - 1] == o then 1 else 0)
  {
    assert q == q[..|q| - 1] + [q[|q| - 1]];
  }

  lemma {:induction false} EdgesOfCount(g: Graph, q: seq<Node>, o: Node, e: Edge)
    requires Within(g, q) && o in g
    ensures multiset(EdgesOf(g, q))[(o, e)] == Times(q, o) * Copies(g[o], e)
    decreases |q|
  {
    if q != [] {
      hide Copies, Times, EdgesFrom;
      var below, n := q[..|q| - 1], q[|q| - 1];
      EdgesOfCount(g, below, o, e);
      EdgesFromCount(g, n, |g[n]|, o, e);
      TimesLast(q, o);
      assert g[n][..|g[n]|] == g[n];
      PairCount(EdgesOf(g, below), EdgesFrom(g, n, |g[n]|), (o, e));
      MoreCopies(Times(below, o), if n == o then 1 else 0, Copies(g[o], e));
    }
  }

  lemma PairCount(a: seq<(Node, Edge)>, b: seq<(Node, Edge)>, x: (Node, Edge))
    ensures multiset(a + b)[x] == multiset(a)[x] + multiset(b)[x]
  {
  }

  lemma MoreCopies(t: nat, one: nat, c: nat)
    requires one <= 1
    ensures (t + one) * c == t * c + (if one == 1 then c else 0)
  {
  }

  /**
   In every complete run, whatever the starts and the handler, each edge is reported once for
   every time its origin was queued (parallel edges each once).
   */
  lemma EdgesReported<D>(s: Search<D>, log: seq<Call>, o: Node, e: Edge)
    requires WellFormed(s) && IsRun(s, log) && Complete(s, log) && o in s.g
    ensures Reports(log, o, e) == Times(Queued(s, log), o) * Copies(s.g[o], e)
  {
    CompleteRunReports(s, log);
    EdgesOfCount(s.g, Queued(s, log), o, e);
  }

  /**
   With distinct starts that are not entered again, and un-marked nodes abandoned, that is
   once for each explored node.
   */
  lemma EdgesReportedOnce<D(!new)>(s: Search<D>, log: seq<Call>, o: Node, e: Edge)
    requires WellFormed(s) && IsRun(s, log) && Complete(s, log) && UnmarkedAbandoned(s.handler)
    requires Distinct(s.starts) && (forall n :: n in s.starts ==> EnteredNotAgain(s, n)) && o in s.g
    ensures Reports(log, o, e) == if o in Queued(s, log) then Copies(s.g[o], e) else 0
  {
    EdgesReported(s, log, o, e);
    QueuedOnce(s, log);
    DistinctTimes(Queued(s, log), o);
  }

  lemma {:induction false} DistinctTimes(q: seq<Node>, o: Node)
    requires Distinct(q)
    ensures Times(q, o) == if o in q then 1 else 0
    decreases |q|
  {
    if q != [] {
      TimesLast(q, o);
      DistinctTimes(q[..|q| - 1], o);
      assert q == q[..|q| - 1] + [q[|q| - 1]];
    }
  }

  lemma RunExtends<D>(s: Search<D>, log: seq<Call>, call: Call)
    requires IsRun(s, log) && GoesOn(s, log) && IsNext(s, log, call)
    ensures IsRun(s, log + [call])
  {
    assert Front(log + [call]) == log;
  }

  // ---------------------------------------------------------------------------
  // Which nodes are explored
  // ---------------------------------------------------------------------------

  /** The referents that some first call abandoned. */
  ghost function Abandoned<D>(s: Search<D>, log: seq<Call>): set<Node> {
    if log == [] then
      {}
    else
      Abandoned(s, Front(log))
      + (if Last(log).first && Decided(s, log).abandon then {Last(log).edge.referent} else {})
  }

  /** A path from a start on which no node but perhaps the last is to be avoided. */
  ghost predicate StartPath(g: Graph, starts: seq<Node>, avoid: set<Node>, v: Node, p: seq<Node>) {
    && IsPath(g, p) && p[0] in starts && p[|p| - 1] == v
    && forall i :: 0 <= i < |p| - 1 ==> p[i] !in avoid
  }

  lemma StartPathExtends(g: Graph, starts: seq<Node>, avoid: set<Node>, u: Node, v: Node, p: seq<Node>)
    requires StartPath(g, starts, avoid, u, p) && u !in avoid && Linked(g, u, v)
    ensures StartPath(g, starts, avoid, v, p + [v])
  {
    PathExtends(g, p, v);
  }

  /** The nodes abandoned and never queued by another arrival. */
  ghost function GivenUp<D>(s: Search<D>, log: seq<Call>): set<Node> {
    set n | n in Abandoned(s, log) && n !in Queued(s, log)
  }

  ghost predicate ReachableAvoiding(g: Graph, starts: seq<Node>, avoid: set<Node>, v: Node) {
    v !in avoid && exists p :: StartPath(g, starts, avoid, v, p)
  }

  /** Every queued node is reached through queued nodes. */
  lemma {:induction false} QueuedReachable<D>(s: Search<D>, log: seq<Call>, avoid: set<Node>, v: Node)
    requires WellFormed(s) && IsRun(s, log) && v in Queued(s, log)
    requires forall n :: n in Queued(s, log) ==> n !in avoid
    ensures ReachableAvoiding(s.g, s.starts, avoid, v)
    decreases |log|
  {
    if log == [] {
      assert StartPath(s.g, s.starts, avoid, v, [v]);
    } else if v in Queued(s, Front(log)) {
      QueuedReachable(s, Front(log), avoid, v);
    } else {
      var u := Last(log).origin;
      EdgeComesFromQueue(s.g, Queued(s, Front(log)), |log| - 1);
      QueuedReachable(s, Front(log), avoid, u);
      var p :| StartPath(s.g, s.starts, avoid, u, p);
      StartPathExtends(s.g, s.starts, avoid, u, v, p);
    }
  }

  lemma QueuedIsReachable<D>(s: Search<D>, log: seq<Call>, v: Node)
    requires WellFormed(s) && IsRun(s, log) && v in Queued(s, log)
    ensures ReachableFrom(s.g, s.starts, v)
  {
    QueuedReachable(s, log, {}, v);
    var p :| StartPath(s.g, s.starts, {}, v, p);
    assert PathFrom(s.g, p[0], v, p);
  }

  /** The referent of a run's last call is entered by an edge of a reachable node. */
  lemma ReferentReachable<D>(s: Search<D>, log: seq<Call>)
    requires WellFormed(s) && log != [] && IsRun(s, log)
    ensures Last(log).edge.referent in s.g && ReachableFrom(s.g, s.starts, Last(log).edge.referent)
    ensures Entered(s.g, s.starts, Last(log).edge.referent)
  {
    var o, w := Last(log).origin, Last(log).edge.referent;
    EdgeComesFromQueue(s.g, Queued(s, Front(log)), |log| - 1);
    QueuedIsReachable(s, Front(log), o);
    var a :| a in s.starts && Reaches(s.g, a, o);
    ReachesStep(s.g, a, o, w);
  }

  lemma {:induction false} TableGrows<D>(s: Search<D>, log: seq<Call>)
    requires WellFormed(s) && IsRun(s, log)
    ensures s.marked <= Table(s, log).Keys <= s.g.Keys
    ensures log != [] ==> Table(s, Front(log)).Keys <= Table(s, log).Keys
    decreases |log|
  {
    if log != [] {
      TableGrows(s, Front(log));
      ReferentReachable(s, log);
    }
  }

  /** A visited node is a visited start, or was queued or abandoned when first marked. */
  lemma {:induction false} VisitedQueuedOrAbandoned<D>(s: Search<D>, log: seq<Call>, v: Node)
    requires WellFormed(s) && IsRun(s, log) && GoesOn(s, log) && v in Table(s, log)
    ensures v in Queued(s, log) || v in Abandoned(s, log)
    decreases |log|
  {
    if log != [] && v in Table(s, Front(log)) {
      VisitedQueuedOrAbandoned(s, Front(log), v);
    }
  }

  /** The referent of every call made is queued or abandoned. */
  lemma {:induction false} ReferentHandled<D>(s: Search<D>, log: seq<Call>, i: nat)
    requires WellFormed(s) && IsRun(s, log) && GoesOn(s, log) && i < |log|
    ensures log[i].edge.referent in Queued(s, log) || log[i].edge.referent in Abandoned(s, log)
    decreases |log|
  {
    if i < |log| - 1 {
      ReferentHandled(s, Front(log), i);
    } else if !Last(log).first {
      VisitedQueuedOrAbandoned(s, Front(log), log[i].edge.referent);
    }
  }

  lemma {:induction false} EdgeOfQueued(g: Graph, q: seq<Node>, o: Node, j: nat) returns (i: nat)
    requires Within(g, q) && o in q && o in g && j < |g[o]|
    ensures i < |EdgesOf(g, q)| && EdgesOf(g, q)[i] == (o, g[o][j])
    decreases |q|
  {
    var below, n := q[..|q| - 1], q[|q| - 1];
    if n == o {
      i := |EdgesOf(g, below)| + j;
    } else {
      i := EdgeOfQueued(g, below, o, j);
    }
  }

  /** A handler that never leaves a new referent unmarked. It may abandon any. */
  ghost predicate AlwaysMarks<D(!new)>(h: Handler<D>) {
    forall log, data :: log != [] && Last(log).first && h(log, data).GoesOn() ==> h(log, data).mark
  }

  /** When everything is marked, an abandoned node is never queued unless it is a start. */
  lemma {:induction false} AbandonedStaysOut<D(!new)>(s: Search<D>, log: seq<Call>, v: Node)
    requires WellFormed(s) && AlwaysMarks(s.handler) && IsRun(s, log) && GoesOn(s, log)
    ensures v in Queued(s, log) && v !in s.starts ==> v in Table(s, log) && v !in Abandoned(s, log)
    ensures v in Abandoned(s, log) ==> v in Table(s, log)
    decreases |log|
  {
    if log != [] {
      AbandonedStaysOut(s, Front(log), v);
    }
  }

  /** So the nodes given up are then the abandoned ones without the starts. */
  lemma GivenUpIsAbandoned<D(!new)>(s: Search<D>, log: seq<Call>)
    requires WellFormed(s) && AlwaysMarks(s.handler) && IsRun(s, log) && GoesOn(s, log)
    ensures GivenUp(s, log) == set n | n in Abandoned(s, log) && n !in s.starts
  {
    StartsQueued(s, log);
    forall v ensures v in GivenUp(s, log) <==> v in Abandoned(s, log) && v !in s.starts {
      AbandonedStaysOut(s, log, v);
    }
  }

  /**
   The nodes explored by a complete run are exactly those reachable from the starts along
   paths that avoid every node given up.
   */
  lemma ExploredExactly<D>(s: Search<D>, log: seq<Call>, v: Node)
    requires WellFormed(s) && IsRun(s, log) && GoesOn(s, log) && Complete(s, log)
    ensures v in Queued(s, log) <==> ReachableAvoiding(s.g, s.starts, GivenUp(s, log), v)
  {
    var avoid := GivenUp(s, log);
    if v in Queued(s, log) {
      QueuedReachable(s, log, avoid, v);
    }
    if ReachableAvoiding(s.g, s.starts, avoid, v) {
      var p :| StartPath(s.g, s.starts, avoid, v, p);
      ExploredAlong(s, log, p);
    }
  }

  lemma {:induction false} ExploredAlong<D>(s: Search<D>, log: seq<Call>, p: seq<Node>)
    requires WellFormed(s) && IsRun(s, log) && GoesOn(s, log) && Complete(s, log)
    requires IsPath(s.g, p) && p[0] in s.starts && forall i :: 0 <= i < |p| ==> p[i] !in GivenUp(s, log)
    ensures p[|p| - 1] in Queued(s, log)
    decreases |p|
  {
    if |p| == 1 {
      StartsQueued(s, log);
    } else {
      var u, v := p[|p| - 2], p[|p| - 1];
      ExploredAlong(s, log, p[..|p| - 1]);
      var j :| 0 <= j < |s.g[u]| && s.g[u][j].referent == v;
      var i := EdgeOfQueued(s.g, Queued(s, log), u, j);
      CompleteRunReports(s, log);
      assert Reported(log)[i] == (log[i].origin, log[i].edge);
      ReferentHandled(s, log, i);
      assert v !in GivenUp(s, log);
    }
  }

  lemma {:induction false} StartsQueued<D>(s: Search<D>, log: seq<Call>)
    ensures s.starts <= Queued(s, log)
    ensures forall n :: n in s.starts ==> n in Queued(s, log)
    decreases |log|
  {
    if log != [] {
      StartsQueued(s, Front(log));
    }
  }

  // ---------------------------------------------------------------------------
  // Once per edge
  // ---------------------------------------------------------------------------

  /** Some edge of a node reachable past no node of `avoid` leads to `n`. */
  ghost predicate EnteredPast(g: Graph, starts: seq<Node>, avoid: set<Node>, n: Node) {
    exists a :: ReachableAvoiding(g, starts, avoid, a) && Linked(g, a, n)
  }

  lemma {:induction false} QueuedWhenMarked<D(!new)>(s: Search<D>, log: seq<Call>, n: Node)
    requires WellFormed(s) && AlwaysMarks(s.handler) && IsRun(s, log) && GoesOn(s, log)
    ensures s.marked <= Table(s, log).Keys && Abandoned(s, log) <= Table(s, log).Keys
    ensures Times(Queued(s, log), n)
         == Times(s.starts, n) + (if n in Table(s, log) && n !in s.marked && n !in Abandoned(s, log) then 1 else 0)
    ensures n in s.marked ==> n !in Abandoned(s, log)
    decreases |log|
  {
    if log != [] {
      QueuedWhenMarked(s, Front(log), n);
      if Enqueues(s, log) {
        TimesLast(Queued(s, log), n);
      }
    }
  }

  /** Every referent reported is visited, and only such referents beside the marked starts are. */
  lemma {:induction false} VisitedWhenReported<D(!new)>(s: Search<D>, log: seq<Call>, n: Node)
    requires WellFormed(s) && AlwaysMarks(s.handler) && IsRun(s, log) && GoesOn(s, log)
    ensures n in Table(s, log) <==> n in s.marked || exists i :: 0 <= i < |log| && log[i].edge.referent == n
    decreases |log|
  {
    if log != [] {
      VisitedWhenReported(s, Front(log), n);
      assert forall i :: 0 <= i < |log| - 1 ==> log[i] == Front(log)[i];
    }
  }

  lemma ReportedIffEntered<D>(s: Search<D>, log: seq<Call>, n: Node)
    requires WellFormed(s) && IsRun(s, log) && GoesOn(s, log) && Complete(s, log)
    ensures (exists i :: 0 <= i < |log| && log[i].edge.referent == n) <==> EnteredPast(s.g, s.starts, GivenUp(s, log), n)
  {
    hide ReachableAvoiding, GivenUp, IsRun, Queued, EdgesOf;
    CompleteRunReports(s, log);
    if i :| 0 <= i < |log| && log[i].edge.referent == n {
      assert Reported(log)[i] == (log[i].origin, log[i].edge);
      EdgeComesFromQueue(s.g, Queued(s, log), i);
      ExploredExactly(s, log, log[i].origin);
    }
    if a :| ReachableAvoiding(s.g, s.starts, GivenUp(s, log), a) && Linked(s.g, a, n) {
      ExploredExactly(s, log, a);
      var j :| 0 <= j < |s.g[a]| && s.g[a][j].referent == n;
      RunWithin(s, log);
      var i := EdgeOfQueued(s.g, Queued(s, log), a, j);
      assert Reported(log)[i] == (log[i].origin, log[i].edge);
    }
  }

  /** A start that is not queued again: marked, abandoned when entered, or not entered by any explored node. */
  ghost predicate OneTurn<D>(s: Search<D>, log: seq<Call>, n: Node) {
    n in s.marked || n in Abandoned(s, log) || !EnteredPast(s.g, s.starts, GivenUp(s, log), n)
  }

  /**
   How often a complete run that marks everything explores a node: once for each time it was
   added as a start, and once more when it is entered without being marked yet or abandoned.
   */
  lemma QueuedTimes<D(!new)>(s: Search<D>, log: seq<Call>, n: Node)
    requires WellFormed(s) && AlwaysMarks(s.handler) && IsRun(s, log) && GoesOn(s, log) && Complete(s, log)
    ensures Times(Queued(s, log), n) == Times(s.starts, n) + (if OneTurn(s, log, n) then 0 else 1)
  {
    QueuedWhenMarked(s, log, n);
    VisitedWhenReported(s, log, n);
    ReportedIffEntered(s, log, n);
  }

  ghost predicate OncePerEdge(g: Graph, log: seq<Call>) {
    forall o, e :: o in g ==> Reports(log, o, e) <= Copies(g[o], e)
  }

  /**
   The header promises one call for each edge traversed. When everything is marked, whatever
   is abandoned, that holds exactly if each start that has edges was added once and is
   not queued again.
   */
  lemma OncePerEdgeIff<D(!new)>(s: Search<D>, log: seq<Call>)
    requires WellFormed(s) && AlwaysMarks(s.handler) && IsRun(s, log) && GoesOn(s, log) && Complete(s, log)
    ensures OncePerEdge(s.g, log)
       <==> forall n :: n in s.starts && n in s.g && s.g[n] != [] ==> Times(s.starts, n) == 1 && OneTurn(s, log, n)
  {
    hide IsRun, Table, Queued, EdgesOf, AlwaysMarks, OneTurn, Reports, Times;
    if OncePerEdge(s.g, log) {
      forall n | n in s.starts && n in s.g && s.g[n] != [] ensures Times(s.starts, n) == 1 && OneTurn(s, log, n) {
        EdgesReported(s, log, n, s.g[n][0]);
        assert Copies(s.g[n], s.g[n][0]) > 0;
        MultipleBelow(Times(Queued(s, log), n), Copies(s.g[n], s.g[n][0]));
        QueuedTimes(s, log, n);
        StartsCounted(s.starts, n);
      }
    }
    if forall n :: n in s.starts && n in s.g && s.g[n] != [] ==> Times(s.starts, n) == 1 && OneTurn(s, log, n) {
      forall o, e | o in s.g ensures Reports(log, o, e) <= Copies(s.g[o], e) {
        EdgesReported(s, log, o, e);
        QueuedTimes(s, log, o);
        StartsCounted(s.starts, o);
        if s.g[o] != [] {
          MultipleBelow(Times(Queued(s, log), o), Copies(s.g[o], e));
        } else {
          assert Copies(s.g[o], e) == 0;
        }
      }
    }
  }

  lemma StartsCounted(starts: seq<Node>, n: Node)
    ensures Times(starts, n) > 0 <==> n in starts
  {
    assert n in starts <==> n in multiset(starts);
  }

  lemma MultipleBelow(t: nat, c: nat)
    ensures t <= 1 ==> t * c <= c
    ensures c > 0 && t * c <= c ==> t <= 1
  {
    if t > 1 && c > 0 {
      assert t * c == (t - 2) * c + 2 * c;
      assert (t - 2) * c >= 0;
    }
  }
}
