/**
 When a breadth-first traversal ends. A handler may leave a node unmarked without
 abandoning it, and the node is then queued on every arrival; the traversal still ends
 unless such nodes form a cycle that the starts can reach.
 */
module BreadthFirstTermination {
  import opened Graphs
  import opened BreadthFirsts
  import opened BreadthFirstLaws

  /** Only nodes of `loose` are ever left unmarked without being abandoned. */
  ghost predicate UnmarkedWithin<D(!new)>(h: Handler<D>, loose: set<Node>) {
    forall log, data ::
      log != [] && Last(log).first && h(log, data).GoesOn() && !h(log, data).abandon && !h(log, data).mark
      ==> Last(log).edge.referent in loose
  }

  // ---------------------------------------------------------------------------
  // Paths through loose nodes
  // ---------------------------------------------------------------------------

  /** A path of at least one edge whose nodes after the first are all loose. */
  ghost predicate LoosePath(g: Graph, loose: set<Node>, p: seq<Node>) {
    |p| > 1 && IsPath(g, p) && forall i :: 0 < i < |p| ==> p[i] in loose
  }

  ghost predicate LeadsTo(g: Graph, loose: set<Node>, a: Node, b: Node) {
    exists p :: LoosePath(g, loose, p) && p[0] == a && p[|p| - 1] == b
  }

  ghost predicate LooseCycle(g: Graph, loose: set<Node>) {
    exists a :: LeadsTo(g, loose, a, a)
  }

  /** The loose nodes that some loose path from `n` leads to. */
  ghost function Below(g: Graph, loose: set<Node>, n: Node): set<Node> {
    set b | b in loose && LeadsTo(g, loose, n, b)
  }

  lemma {:induction false} PathPrepends(g: Graph, a: Node, p: seq<Node>)
    requires IsPath(g, p) && Linked(g, a, p[0])
    ensures IsPath(g, [a] + p)
    decreases |p|
  {
    assert ([a] + p)[..|p|] == [a] + p[..|p| - 1];
    if |p| > 1 {
      PathPrepends(g, a, p[..|p| - 1]);
    }
  }

  lemma LinkLeads(g: Graph, loose: set<Node>, a: Node, b: Node)
    requires Linked(g, a, b) && b in loose
    ensures LeadsTo(g, loose, a, b)
  {
    var p := [a, b];
    assert p[..1] == [a];
    assert LoosePath(g, loose, p);
  }

  /** Following an edge to a loose node leaves strictly fewer loose nodes below, unless they form a cycle. */
  lemma BelowShrinks(g: Graph, loose: set<Node>, a: Node, b: Node)
    requires Linked(g, a, b) && b in loose && !LooseCycle(g, loose)
    ensures Below(g, loose, b) < Below(g, loose, a)
  {
    LinkLeads(g, loose, a, b);
    forall c | c in Below(g, loose, b) ensures c in Below(g, loose, a) {
      var p :| LoosePath(g, loose, p) && p[0] == b && p[|p| - 1] == c;
      PathPrepends(g, a, p);
      assert LoosePath(g, loose, [a] + p);
    }
    assert b !in Below(g, loose, b);
  }

  // ---------------------------------------------------------------------------
  // Without a loose cycle, runs are bounded
  // ---------------------------------------------------------------------------

  /** The calls that the first `j` edges of a node can cause, those below loose referents included. */
  ghost function Weight(g: Graph, loose: set<Node>, n: Node, j: nat): nat
    requires Closed(g) && n in g && j <= |g[n]| && !LooseCycle(g, loose)
    decreases Below(g, loose, n), j
  {
    if j == 0 then 0
    else
      var w := g[n][j - 1].referent;
      assert Linked(g, n, w);
      var deeper := if w in loose then BelowShrinks(g, loose, n, w); Weight(g, loose, w, |g[w]|) else 0;
      Weight(g, loose, n, j - 1) + 1 + deeper
  }

  ghost predicate LeadInto(g: Graph, edges: seq<(Node, Edge)>) {
    forall i :: 0 <= i < |edges| ==> edges[i].1.referent in g
  }

  /** The calls that reporting an edge to `w` can cause, when `w` is not marked by it. */
  ghost function Cost(g: Graph, loose: set<Node>, w: Node): nat
    requires Closed(g) && w in g && !LooseCycle(g, loose)
  {
    1 + if w in loose then Weight(g, loose, w, |g[w]|) else 0
  }

  ghost function Owed(g: Graph, loose: set<Node>, edges: seq<(Node, Edge)>): nat
    requires Closed(g) && LeadInto(g, edges) && !LooseCycle(g, loose)
  {
    if edges == [] then 0 else Cost(g, loose, edges[0].1.referent) + Owed(g, loose, edges[1..])
  }

  lemma {:induction false} OwedConcat(g: Graph, loose: set<Node>, a: seq<(Node, Edge)>, b: seq<(Node, Edge)>)
    requires Closed(g) && LeadInto(g, a) && LeadInto(g, b) && !LooseCycle(g, loose)
    ensures LeadInto(g, a + b) && Owed(g, loose, a + b) == Owed(g, loose, a) + Owed(g, loose, b)
    decreases |a|
  {
    hide Cost, LooseCycle;
    if a == [] {
      assert a + b == b;
    } else {
      OwedConcat(g, loose, a[1..], b);
      assert (a + b)[1..] == a[1..] + b;
    }
  }

  lemma OwedNothing(g: Graph, loose: set<Node>)
    requires Closed(g) && !LooseCycle(g, loose)
    ensures LeadInto(g, []) && Owed(g, loose, []) == 0
  {
  }

  lemma {:induction false} OwedFrom(g: Graph, loose: set<Node>, n: Node, j: nat)
    requires Closed(g) && n in g && j <= |g[n]| && !LooseCycle(g, loose)
    ensures LeadInto(g, EdgesFrom(g, n, j)) && Owed(g, loose, EdgesFrom(g, n, j)) == Weight(g, loose, n, j)
    decreases j
  {
    hide LooseCycle;
    if j > 0 {
      OwedFrom(g, loose, n, j - 1);
      var last := [(n, g[n][j - 1])];
      assert EdgesFrom(g, n, j) == EdgesFrom(g, n, j - 1) + last;
      OwedConcat(g, loose, EdgesFrom(g, n, j - 1), last);
      assert Owed(g, loose, last) == Cost(g, loose, g[n][j - 1].referent) by {
        assert last[1..] == [];
      }
    }
  }

  ghost predicate WeighsAtMost(g: Graph, loose: set<Node>, nodes: set<Node>, most: nat)
    requires Closed(g) && !LooseCycle(g, loose) && nodes <= g.Keys
  {
    forall n :: n in nodes ==> Weight(g, loose, n, |g[n]|) <= most
  }

  lemma {:induction false} HeaviestNode(g: Graph, loose: set<Node>, nodes: set<Node>) returns (most: nat)
    requires Closed(g) && !LooseCycle(g, loose) && nodes <= g.Keys
    ensures WeighsAtMost(g, loose, nodes, most)
    decreases nodes
  {
    hide LooseCycle, Weight;
    if n :| n in nodes {
      var rest := HeaviestNode(g, loose, nodes - {n});
      var own := Weight(g, loose, n, |g[n]|);
      most := if own > rest then own else rest;
    } else {
      most := 0;
    }
  }

  lemma {:induction false} OwedOfQueue(g: Graph, loose: set<Node>, q: seq<Node>, most: nat)
    requires Closed(g) && Within(g, q) && !LooseCycle(g, loose) && WeighsAtMost(g, loose, g.Keys, most)
    ensures LeadInto(g, EdgesOf(g, q)) && Owed(g, loose, EdgesOf(g, q)) <= |q| * most
    decreases |q|
  {
    hide LooseCycle, Weight, Owed, EdgesFrom, Closed;
    if q == [] {
      OwedNothing(g, loose);
    } else {
      var below, n := q[..|q| - 1], q[|q| - 1];
      OwedOfQueue(g, loose, below, most);
      OwedFrom(g, loose, n, |g[n]|);
      OwedConcat(g, loose, EdgesOf(g, below), EdgesFrom(g, n, |g[n]|));
      MulMonotone(|below|, |q|, most);
    }
  }

  /** The loose nodes that matter: a marked start is never met as unvisited, and unreachable nodes are never met. */
  ghost function Free(g: Graph, starts: seq<Node>, marked: set<Node>, loose: set<Node>): set<Node> {
    set n | n in loose && n !in marked && ReachableFrom(g, starts, n)
  }

  lemma LeadIntoFrom(g: Graph, edges: seq<(Node, Edge)>, i: nat)
    requires LeadInto(g, edges) && i <= |edges|
    ensures LeadInto(g, edges[i..])
  {
  }

  /** Reporting one edge pays its cost; queueing its referent adds the referent's edges. */
  lemma OwedAfterCall(g: Graph, loose: set<Node>, q: seq<Node>, i: nat, enqueued: bool)
    requires Closed(g) && Within(g, q) && !LooseCycle(g, loose) && LeadInto(g, EdgesOf(g, q)) && i < |EdgesOf(g, q)|
    ensures var w := EdgesOf(g, q)[i].1.referent;
            var q' := q + (if enqueued then [w] else []);
            && w in g && Within(g, q') && i < |EdgesOf(g, q')|
            && LeadInto(g, EdgesOf(g, q)[i..]) && LeadInto(g, EdgesOf(g, q')[i + 1..])
            && Owed(g, loose, EdgesOf(g, q')[i + 1..]) + Cost(g, loose, w)
               == Owed(g, loose, EdgesOf(g, q)[i..]) + (if enqueued then Weight(g, loose, w, |g[w]|) else 0)
  {
    hide LooseCycle, Weight, Cost;
    var edges := EdgesOf(g, q);
    var w := edges[i].1.referent;
    LeadIntoFrom(g, edges, i);
    LeadIntoFrom(g, edges, i + 1);
    assert edges[i..][1..] == edges[i + 1..];
    if enqueued {
      EdgesOfAppend(g, q, w);
      OwedFrom(g, loose, w, |g[w]|);
      OwedConcat(g, loose, edges[i + 1..], EdgesFrom(g, w, |g[w]|));
      assert (edges + EdgesFrom(g, w, |g[w]|))[i + 1..] == edges[i + 1..] + EdgesFrom(g, w, |g[w]|);
    } else {
      assert q + [] == q;
    }
  }

  lemma FreshKey(before: set<Node>, after: set<Node>, w: Node)
    requires before <= after
    ensures |before| <= |after|
    ensures w !in before && w in after ==> |before| + 1 <= |after|
  {
    assert after == before + (after - before);
    if w !in before && w in after {
      assert w in after - before;
    }
  }

  /** A node queued by the last call is free, or has just been marked. */
  lemma QueuedFreeOrMarked<D(!new)>(s: Search<D>, loose: set<Node>, log: seq<Call>)
    requires WellFormed(s) && UnmarkedWithin(s.handler, loose) && log != [] && IsRun(s, log) && Enqueues(s, log)
    ensures var w := Last(log).edge.referent;
            w in Free(s.g, s.starts, s.marked, loose) || (w !in Table(s, Front(log)) && w in Table(s, log))
  {
    TableGrows(s, Front(log));
    ReferentReachable(s, log);
  }

  /** Calls made and calls still owed are paid for by the starts and by the nodes marked. */
  lemma {:induction false} CallsPaidFor<D(!new)>(s: Search<D>, loose: set<Node>, most: nat, log: seq<Call>)
    requires WellFormed(s) && UnmarkedWithin(s.handler, loose) && IsRun(s, log)
    requires !LooseCycle(s.g, Free(s.g, s.starts, s.marked, loose)) && WeighsAtMost(s.g, Free(s.g, s.starts, s.marked, loose), s.g.Keys, most)
    ensures Within(s.g, Queued(s, log)) && |log| <= |EdgesOf(s.g, Queued(s, log))|
    ensures LeadInto(s.g, EdgesOf(s.g, Queued(s, log))[|log|..])
    ensures |log| + Owed(s.g, Free(s.g, s.starts, s.marked, loose), EdgesOf(s.g, Queued(s, log))[|log|..])
         <= (|s.starts| + |Table(s, log).Keys|) * most
    decreases |log|
  {
    hide LooseCycle, Weight, Owed, Table, UnmarkedWithin, Free, EdgesOf, Queued, Decided, IsRun, Enqueues, WeighsAtMost, LeadInto;
    var free := Free(s.g, s.starts, s.marked, loose);
    if log == [] {
      OwedOfQueue(s.g, free, s.starts, most);
      NothingReported(s);
      MulMonotone(|s.starts|, |s.starts| + |Table(s, log).Keys|, most);
    } else {
      var front, w := Front(log), Last(log).edge.referent;
      var q := Queued(s, front);
      LastReported(s, log);
      CallsPaidFor(s, loose, most, front);
      OwedOfQueue(s.g, free, q, most);
      OwedAfterCall(s.g, free, q, |front|, Enqueues(s, log));
      TableGrows(s, log);
      FreshKey(Table(s, front).Keys, Table(s, log).Keys, w);
      MulMonotone(|s.starts| + |Table(s, front).Keys|, |s.starts| + |Table(s, log).Keys|, most);
      LightEnough(s.g, free, w, most);
      if Enqueues(s, log) {
        QueuedFreeOrMarked(s, loose, log);
      }
    }
  }

  lemma LightEnough(g: Graph, loose: set<Node>, w: Node, most: nat)
    requires Closed(g) && !LooseCycle(g, loose) && WeighsAtMost(g, loose, g.Keys, most) && w in g
    ensures Weight(g, loose, w, |g[w]|) <= most
  {
  }

  lemma NothingReported<D>(s: Search<D>)
    requires Within(s.g, s.starts)
    ensures Queued(s, []) == s.starts && EdgesOf(s.g, s.starts)[0..] == EdgesOf(s.g, s.starts)
  {
  }

  /** A run's last call reports the next edge of the queue before it, and may queue its referent. */
  lemma LastReported<D>(s: Search<D>, log: seq<Call>)
    requires log != [] && IsRun(s, log)
    ensures var q := Queued(s, Front(log));
            && IsRun(s, Front(log)) && Within(s.g, q) && |log| - 1 < |EdgesOf(s.g, q)|
            && EdgesOf(s.g, q)[|log| - 1].1 == Last(log).edge
            && Queued(s, log) == q + (if Enqueues(s, log) then [Last(log).edge.referent] else [])
  {
  }

  lemma {:induction false} MulMonotone(a: nat, b: nat, m: nat)
    requires a <= b
    ensures a * m <= b * m
    ensures a < b ==> a * m + m <= b * m
    decreases b
  {
    if a < b {
      MulMonotone(a, b - 1, m);
      assert b * m == (b - 1) * m + m;
    }
  }

  /** Unless reachable loose nodes form a cycle, the runs of a search are bounded. */
  lemma TerminatesWithoutLooseCycle<D(!new)>(s: Search<D>, loose: set<Node>)
    requires WellFormed(s) && UnmarkedWithin(s.handler, loose) && !LooseCycle(s.g, Free(s.g, s.starts, s.marked, loose))
    ensures Bounded(s)
  {
    hide LooseCycle, Weight, Free, UnmarkedWithin;
    var most := HeaviestNode(s.g, Free(s.g, s.starts, s.marked, loose), s.g.Keys);
    var n := (|s.starts| + |s.g.Keys|) * most;
    forall log | IsRun(s, log) ensures |log| <= n {
      CallsPaidFor(s, loose, most, log);
      TableGrows(s, log);
      FreshKey(Table(s, log).Keys, s.g.Keys, 0);
      MulMonotone(|s.starts| + |Table(s, log).Keys|, |s.starts| + |s.g.Keys|, most);
    }
    assert AtMost(s, n);
  }

  /** In particular when every un-marked first referent is abandoned, on every graph. */
  lemma AbandoningTerminates<D(!new)>(s: Search<D>)
    requires WellFormed(s) && UnmarkedAbandoned(s.handler)
    ensures Bounded(s)
  {
    assert !LooseCycle(s.g, Free(s.g, s.starts, s.marked, {}));
    TerminatesWithoutLooseCycle(s, {});
  }

  // ---------------------------------------------------------------------------
  // With a loose cycle, some handler never ends
  // ---------------------------------------------------------------------------

  /** The handler that marks every node but the loose ones, and never abandons, stops or fails. */
  ghost function Sparing(loose: set<Node>): Handler<int> {
    (log: seq<Call>, data: int) => Decision(true, false, false, log == [] || Last(log).edge.referent !in loose, data)
  }

  ghost predicate IsSparing(s: Search<int>, loose: set<Node>) {
    WellFormed(s) && s.handler == Sparing(loose)
  }

  lemma {:induction false} SparingRun(s: Search<int>, loose: set<Node>, log: seq<Call>)
    requires IsSparing(s, loose) && IsRun(s, log)
    ensures GoesOn(s, log) && Abandoned(s, log) == {}
    ensures forall n :: n in loose && n !in s.marked ==> n !in Table(s, log)
    decreases |log|
  {
    if log != [] {
      SparingRun(s, loose, Front(log));
    }
  }

  /** A call whose referent is loose and no marked start queues it, behind all nodes queued before. */
  lemma {:induction false} LooseReferentQueued(s: Search<int>, loose: set<Node>, log: seq<Call>, i: nat)
    requires IsSparing(s, loose) && IsRun(s, log) && i < |log|
    requires log[i].edge.referent in loose && log[i].edge.referent !in s.marked
    ensures var before := Queued(s, log[..i]);
            before + [log[i].edge.referent] <= Queued(s, log) && Within(s.g, before) && i < |EdgesOf(s.g, before)|
    decreases |log|
  {
    if i == |log| - 1 {
      SparingRun(s, loose, Front(log));
      SparingRun(s, loose, log);
      assert Front(log) == log[..i];
    } else {
      assert Front(log)[..i] == log[..i] && Front(log)[i] == log[i];
      LooseReferentQueued(s, loose, Front(log), i);
    }
  }

  lemma {:induction false} PathLinks(g: Graph, p: seq<Node>, i: nat)
    requires IsPath(g, p) && i < |p| - 1
    ensures Linked(g, p[i], p[i + 1])
    decreases |p|
  {
    if i < |p| - 2 {
      PathLinks(g, p[..|p| - 1], i);
    }
  }

  /** The last place in a queue that holds a node of a set. */
  lemma {:induction false} LastPlace(q: seq<Node>, nodes: set<Node>) returns (k: nat)
    requires exists i :: 0 <= i < |q| && q[i] in nodes
    ensures k < |q| && q[k] in nodes && forall i :: k < i < |q| ==> q[i] !in nodes
    decreases |q|
  {
    if q[|q| - 1] in nodes {
      k := |q| - 1;
    } else {
      k := LastPlace(q[..|q| - 1], nodes);
    }
  }

  lemma ReachableIsQueued(s: Search<int>, loose: set<Node>, log: seq<Call>, v: Node)
    requires IsSparing(s, loose) && IsRun(s, log) && Complete(s, log) && ReachableFrom(s.g, s.starts, v)
    ensures v in Queued(s, log)
  {
    SparingRun(s, loose, log);
    var a :| a in s.starts && Reaches(s.g, a, v);
    var p :| PathFrom(s.g, a, v, p);
    assert StartPath(s.g, s.starts, GivenUp(s, log), v, p);
    ExploredExactly(s, log, v);
  }

  /** The next node of a cycle is queued behind any of its places in the queue of a complete run. */
  lemma NextQueuedBehind(s: Search<int>, loose: set<Node>, log: seq<Call>, k: nat, v: Node) returns (m: nat)
    requires IsSparing(s, loose) && IsRun(s, log) && Complete(s, log) && k < |Queued(s, log)|
    requires Linked(s.g, Queued(s, log)[k], v) && v in Free(s.g, s.starts, s.marked, loose)
    ensures k < m < |Queued(s, log)| && Queued(s, log)[m] == v
  {
    hide IsRun, Table, Queued, EdgesOf, Free;
    var q := Queued(s, log);
    var j :| 0 <= j < |s.g[q[k]]| && s.g[q[k]][j].referent == v;
    EdgeAtCursor(s.g, q, k, j);
    CompleteRunReports(s, log);
    var i := |EdgesOf(s.g, q[..k])| + j;
    assert Reported(log)[i] == (log[i].origin, log[i].edge);
    FreeIsLoose(s, loose, v);
    LooseReferentQueued(s, loose, log, i);
    m := |Queued(s, log[..i])|;
    assert Queued(s, log[..i]) + [v] == q[..m + 1];
    assert Queued(s, log[..i]) == q[..m];
    if m <= k {
      assert q[..k][..m] == q[..m];
      EdgesOfPrefix(s.g, q[..k], m);
    }
  }

  lemma FreeIsLoose<D>(s: Search<D>, loose: set<Node>, v: Node)
    requires v in Free(s.g, s.starts, s.marked, loose)
    ensures v in loose && v !in s.marked && ReachableFrom(s.g, s.starts, v)
  {
  }

  /** Along a loose cycle there is always a node still to explore. */
  lemma LooseCycleNeverCompletes(s: Search<int>, loose: set<Node>, log: seq<Call>)
    requires IsSparing(s, loose) && IsRun(s, log) && LooseCycle(s.g, Free(s.g, s.starts, s.marked, loose))
    ensures !Complete(s, log)
  {
    hide IsRun, Table, Queued, EdgesOf, Free, IsPath, Complete;
    if Complete(s, log) {
      var free := Free(s.g, s.starts, s.marked, loose);
      var a :| LeadsTo(s.g, free, a, a);
      var p :| LoosePath(s.g, free, p) && p[0] == a && p[|p| - 1] == a;
      var onCycle := set n | n in p;
      FreeIsLoose(s, loose, a);
      ReachableIsQueued(s, loose, log, a);
      var k := LastPlace(Queued(s, log), onCycle);
      var i :| 0 <= i < |p| && p[i] == Queued(s, log)[k];
      if i == |p| - 1 {
        i := 0;
      }
      PathLinks(s.g, p, i);
      assert p[i + 1] in onCycle;
      var _ := NextQueuedBehind(s, loose, log, k, p[i + 1]);
    }
  }

  lemma {:induction false} RunOfLength(s: Search<int>, loose: set<Node>, n: nat) returns (log: seq<Call>)
    requires IsSparing(s, loose) && LooseCycle(s.g, Free(s.g, s.starts, s.marked, loose))
    ensures IsRun(s, log) && |log| == n
    decreases n
  {
    hide LooseCycle, Free, Table, Queued;
    if n == 0 {
      log := [];
    } else {
      var front := RunOfLength(s, loose, n - 1);
      LooseCycleNeverCompletes(s, loose, front);
      SparingRun(s, loose, front);
      RunReports(s, front);
      var (o, e) := EdgesOf(s.g, Queued(s, front))[n - 1];
      var call := Call(o, e, e.referent !in Table(s, front));
      RunExtends(s, front, call);
      log := front + [call];
    }
  }

  lemma LooseCycleNeverEnds(s: Search<int>, loose: set<Node>)
    requires IsSparing(s, loose) && LooseCycle(s.g, Free(s.g, s.starts, s.marked, loose))
    ensures !Bounded(s)
  {
    hide LooseCycle, Free, IsRun;
    forall n: nat ensures !AtMost(s, n) {
      var log := RunOfLength(s, loose, n + 1);
    }
  }

  /**
   For a graph, its starts, and the nodes a handler may leave unmarked without abandoning
   them: the traversal ends whatever such a handler decides exactly when no cycle of those
   nodes, marked starts excepted, can be reached from the starts.
   */
  lemma TerminatesIff(g: Graph, starts: seq<Node>, marked: set<Node>, loose: set<Node>)
    requires Closed(g) && Within(g, starts) && (forall n :: n in marked ==> n in starts) && marked <= g.Keys
    ensures (forall h: Handler<int> :: UnmarkedWithin(h, loose) ==> Bounded(Search(g, starts, marked, 0, h)))
       <==> !LooseCycle(g, Free(g, starts, marked, loose))
  {
    hide LooseCycle, Bounded;
    var s := Search(g, starts, marked, 0, Sparing(loose));
    if LooseCycle(g, Free(g, starts, marked, loose)) {
      assert UnmarkedWithin(Sparing(loose), loose);
      LooseCycleNeverEnds(s, loose);
    } else {
      forall h: Handler<int> | UnmarkedWithin(h, loose) ensures Bounded(Search(g, starts, marked, 0, h)) {
        TerminatesWithoutLooseCycle(Search(g, starts, marked, 0, h), loose);
      }
    }
  }
}
