/**
 The two promises of `public/UbiNodeBreadthFirst.h` that follow from the level invariant:
 handler calls come in order of their origins' distance, and the first arrivals recorded
 by a handler lead back along shortest paths.
 */
module BreadthFirstPaths {
  import opened Graphs
  import opened BreadthFirsts
  import opened BreadthFirstLaws
  import opened BreadthFirstLevels

  /** `d` edges are the fewest on any path from a start to `v` that passes through no node of `avoid`. */
  ghost predicate IsDistance(g: Graph, starts: seq<Node>, avoid: set<Node>, v: Node, d: nat) {
    && (exists p :: StartPath(g, starts, avoid, v, p) && |p| == d + 1)
    && (forall p :: StartPath(g, starts, avoid, v, p) ==> |p| >= d + 1)
  }

  lemma FirstPlace(starts: seq<Node>, q: seq<Node>, l: Layers, v: Node) returns (a: nat)
    requires QueueSorted(starts, q, l) && v in q
    ensures a < |q| == |l.level| && q[a] == v && v in l.depth && l.level[a] == l.depth[v]
  {
    if v in starts {
      a := StartPlace(starts, q, v);
    } else {
      a :| 0 <= a < |q| && q[a] == v;
    }
    assert FirstTurn(starts, q, a);
  }

  /** No path gets anywhere faster than the search: its end is at most as deep, or the queue's front is less deep. */
  lemma {:induction false} NoShorterPath<D(!new)>(s: Search<D>, log: seq<Call>, k: nat, j: nat, l: Layers, p: seq<Node>)
    requires Marks(s) && Levels(s, log, k, j, l)
    requires IsPath(s.g, p) && p[0] in s.starts && forall i :: 0 <= i < |p| - 1 ==> p[i] !in GivenUp(s, log)
    ensures var v, q := p[|p| - 1], Queued(s, log);
            || (v in l.depth && l.depth[v] <= |p| - 1 && (|p| > 1 ==> v in Table(s, log)))
            || (k < |q| == |l.level| && l.level[k] < |p| - 1)
    decreases |p|
  {
    hide Table, Queued, GivenUp, Arrivals, EdgesOf, ArrivedFromAbove, IsRun, Closed, QueueSorted;
    PlacesHold(s.starts, Queued(s, log), l);
    if |p| > 1 {
      var front := p[..|p| - 1];
      NoShorterPath(s, log, k, j, l, front);
      var u, v, q := front[|front| - 1], p[|p| - 1], Queued(s, log);
      if u in l.depth && l.depth[u] <= |front| - 1 {
        assert u == p[|p| - 2] && u in q;
        var a := FirstPlace(s.starts, q, l, u);
        if a < k {
          assert FollowedBelow(s.g, q[a], |s.g[q[a]]|, Table(s, log).Keys, l.depth);
          var i :| 0 <= i < |s.g[u]| && s.g[u][i].referent == v;
        }
      }
    }
  }

  lemma PlacesHold(starts: seq<Node>, q: seq<Node>, l: Layers)
    requires QueueSorted(starts, q, l)
    ensures |l.level| == |q| && (forall v :: v in starts ==> v in l.depth && l.depth[v] == 0)
    ensures forall a, b :: 0 <= a <= b < |q| ==> l.level[a] <= l.level[b]
  {
  }

  /** Every start and visited node has a path as long as its depth. */
  lemma {:induction false} DepthPath<D(!new)>(s: Search<D>, log: seq<Call>, k: nat, j: nat, l: Layers, v: Node)
    returns (p: seq<Node>)
    requires Marks(s) && Levels(s, log, k, j, l) && v in l.depth
    ensures StartPath(s.g, s.starts, GivenUp(s, log), v, p) && |p| == l.depth[v] + 1
    decreases l.depth[v]
  {
    hide Table, Queued, Arrivals, AtCursor, FollowedAll, FollowedBelow, TwoLevels;
    if v in s.starts {
      p := [v];
    } else {
      var Reached(o, e) := Arrivals(s, log)[v];
      p := DepthPath(s, log, k, j, l, o);
      EdgeLinks(s.g, o, e);
      StartPathExtends(s.g, s.starts, GivenUp(s, log), o, v, p);
      p := p + [v];
    }
  }

  lemma EdgeLinks(g: Graph, o: Node, e: Edge)
    requires o in g && e in g[o]
    ensures Linked(g, o, e.referent)
  {
    var i :| 0 <= i < |g[o]| && g[o][i] == e;
  }

  lemma DepthIsDistance<D(!new)>(s: Search<D>, log: seq<Call>, k: nat, j: nat, l: Layers, v: Node)
    requires Marks(s) && Levels(s, log, k, j, l) && v in l.depth
    ensures IsDistance(s.g, s.starts, GivenUp(s, log), v, l.depth[v])
  {
    hide Levels, GivenUp, Marks;
    var _ := DepthPath(s, log, k, j, l, v);
    forall p | StartPath(s.g, s.starts, GivenUp(s, log), v, p) ensures |p| >= l.depth[v] + 1 {
      NoShorterPath(s, log, k, j, l, p);
      FrontBound(s, log, k, j, l, v);
    }
  }

  lemma FrontBound<D(!new)>(s: Search<D>, log: seq<Call>, k: nat, j: nat, l: Layers, v: Node)
    requires Levels(s, log, k, j, l) && v in l.depth
    ensures k < |l.level| ==> l.depth[v] <= l.level[k] + 1
  {
  }

  /**
   Whenever the loop looks for the next node, the pending nodes are in order of distance and
   span at most two levels; starts queued a second time are the only exception.
   */
  lemma PendingSpansTwoLevels<D(!new)>(s: Search<D>, log: seq<Call>, k: nat, a: nat, b: nat) returns (c: nat, d: nat)
    requires Marks(s) && GoesOn(s, log) && AtCursor(s, log, k, 0)
    requires k <= a <= b < |Queued(s, log)|
    requires FirstTurn(s.starts, Queued(s, log), a) && FirstTurn(s.starts, Queued(s, log), b)
    ensures IsDistance(s.g, s.starts, GivenUp(s, log), Queued(s, log)[a], c)
    ensures IsDistance(s.g, s.starts, GivenUp(s, log), Queued(s, log)[b], d)
    ensures c <= d <= c + 1
  {
    hide Table, Queued, GivenUp, Arrivals, ArrivedFromAbove, FollowedAll, FollowedBelow, IsDistance;
    var q := Queued(s, log);
    var l := LevelsAtEveryCursor(s, log, k, 0);
    c, d := l.depth[q[a]], l.depth[q[b]];
    DepthIsDistance(s, log, k, 0, l, q[a]);
    DepthIsDistance(s, log, k, 0, l, q[b]);
  }

  // ---------------------------------------------------------------------------
  // Level order
  // ---------------------------------------------------------------------------

  /** The calls up to the first that fails or stops. */
  ghost function GoingOn<D>(s: Search<D>, log: seq<Call>): seq<Call> {
    if GoesOn(s, log) then log else Front(log)
  }

  lemma GoingOnRuns<D>(s: Search<D>, log: seq<Call>)
    requires IsRun(s, log)
    ensures IsRun(s, GoingOn(s, log)) && GoesOn(s, GoingOn(s, log))
    ensures !GoesOn(s, log) ==> log != [] && GoingOn(s, log) == Front(log)
  {
  }

  ghost predicate NoFurther(g: Graph, starts: seq<Node>, avoid: set<Node>, u: Node, v: Node) {
    exists c, d :: IsDistance(g, starts, avoid, u, c) && IsDistance(g, starts, avoid, v, d) && c <= d
  }

  /** Of two calls, the earlier one has an origin no further from the starts. */
  ghost predicate LevelOrdered(g: Graph, starts: seq<Node>, avoid: set<Node>, log: seq<Call>) {
    forall a, b :: 0 <= a <= b < |log| ==> NoFurther(g, starts, avoid, log[a].origin, log[b].origin)
  }

  /** Starts queued a second time have no edges. */
  ghost predicate SecondTurnsEmpty(g: Graph, starts: seq<Node>, q: seq<Node>) {
    forall a :: 0 <= a < |q| && !FirstTurn(starts, q, a) ==> q[a] in g && g[q[a]] == []
  }

  /** The place in the queue whose edges include the `i`-th of all edges. */
  lemma {:induction false} EdgePlace(g: Graph, q: seq<Node>, i: nat) returns (a: nat)
    requires Within(g, q) && i < |EdgesOf(g, q)|
    ensures a < |q| && q[a] in g && EdgesOf(g, q)[i].0 == q[a] && g[q[a]] != []
    ensures |EdgesOf(g, q[..a])| <= i < |EdgesOf(g, q[..a])| + |g[q[a]]|
    decreases |q|
  {
    var below, n := q[..|q| - 1], q[|q| - 1];
    if i < |EdgesOf(g, below)| {
      a := EdgePlace(g, below, i);
      assert below[..a] == q[..a];
    } else {
      a := |q| - 1;
      assert EdgesOf(g, q)[i] == (n, g[n][i - |EdgesOf(g, below)|]);
    }
  }

  /** Later edges come from later places. */
  lemma PlacesInOrder(g: Graph, q: seq<Node>, a: nat, b: nat)
    requires Within(g, q) && a < |q| && b < |q| && |EdgesOf(g, q[..a])| < |EdgesOf(g, q[..b])| + |g[q[b]]|
    ensures a <= b
  {
    if b < a {
      NodeEdges(g, q, b);
      assert q[..a][..b + 1] == q[..b + 1];
      EdgesOfPrefix(g, q[..a], b + 1);
    }
  }

  /** The calls of a run are edges of the nodes queued while it went on. */
  lemma CallsAreEdges<D>(s: Search<D>, log: seq<Call>, i: nat)
    requires WellFormed(s) && IsRun(s, log) && i < |log|
    ensures var q := Queued(s, GoingOn(s, log));
            IsRun(s, GoingOn(s, log)) && GoesOn(s, GoingOn(s, log)) && Within(s.g, q)
            && i < |EdgesOf(s.g, q)| && EdgesOf(s.g, q)[i].0 == log[i].origin
  {
    GoingOnRuns(s, log);
    var before := GoingOn(s, log);
    RunReports(s, before);
    if i < |before| {
      assert Reported(before)[i] == (before[i].origin, before[i].edge);
    }
  }

  /** As long as no start has edges to follow in a second turn, the calls are in level order. */
  lemma OrderedUnlessSecondTurns<D(!new)>(s: Search<D>, log: seq<Call>)
    requires Marks(s) && IsRun(s, log) && SecondTurnsEmpty(s.g, s.starts, Queued(s, GoingOn(s, log)))
    ensures LevelOrdered(s.g, s.starts, GivenUp(s, GoingOn(s, log)), log)
  {
    hide IsRun, Table, Queued, GivenUp, EdgesOf, SecondTurnsEmpty, Levels, IsDistance, GoesOn, GoingOn, FirstTurn;
    GoingOnRuns(s, log);
    var before := GoingOn(s, log);
    forall a, b | 0 <= a <= b < |log|
      ensures NoFurther(s.g, s.starts, GivenUp(s, before), log[a].origin, log[b].origin)
    {
      var q := Queued(s, before);
      CallsAreEdges(s, log, a);
      CallsAreEdges(s, log, b);
      var k, j, l := LevelsHold(s, before);
      var x := EdgePlace(s.g, q, a);
      var y := EdgePlace(s.g, q, b);
      PlacesInOrder(s.g, q, x, y);
      PlaceDepths(s, before, k, j, l, x, y);
      DepthIsDistance(s, before, k, j, l, q[x]);
      DepthIsDistance(s, before, k, j, l, q[y]);
    }
  }

  lemma PlaceDepths<D(!new)>(s: Search<D>, log: seq<Call>, k: nat, j: nat, l: Layers, x: nat, y: nat)
    requires Levels(s, log, k, j, l) && SecondTurnsEmpty(s.g, s.starts, Queued(s, log)) && x <= y < |Queued(s, log)|
    requires var q := Queued(s, log); q[x] in s.g && s.g[q[x]] != [] && q[y] in s.g && s.g[q[y]] != []
    ensures var q := Queued(s, log); q[x] in l.depth && q[y] in l.depth && l.depth[q[x]] <= l.depth[q[y]]
  {
    hide Table, Queued, GivenUp, Arrivals, ArrivedFromAbove, FollowedAll, FollowedBelow, TwoLevels, AtCursor;
  }

  /** A place behind the starts was filled by a call, which read an edge of an earlier place. */
  lemma {:induction false} PlaceArrival<D>(s: Search<D>, log: seq<Call>, a: nat) returns (i: nat)
    requires WellFormed(s) && IsRun(s, log) && |s.starts| <= a < |Queued(s, log)|
    ensures i < |log| && IsRun(s, log[..i + 1]) && log[i].first && log[i].edge.referent == Queued(s, log)[a]
    ensures Queued(s, log)[..a] == Queued(s, log[..i]) && Within(s.g, Queued(s, log[..i]))
    ensures i < |EdgesOf(s.g, Queued(s, log[..i]))|
    ensures (log[i].origin, log[i].edge) == EdgesOf(s.g, Queued(s, log[..i]))[i]
    decreases |log|
  {
    hide EdgesOf, Within, Closed, Table, Decided;
    RunWithin(s, Front(log));
    var front := Front(log);
    if a < |Queued(s, front)| {
      i := PlaceArrival(s, front, a);
      assert front[..i] == log[..i] && front[..i + 1] == log[..i + 1];
    } else {
      i := |log| - 1;
      assert log[..i + 1] == log && log[..i] == front;
      assert Queued(s, log)[..a] == Queued(s, front);
    }
  }

  /** A start with a second turn was not marked, and some reachable node has an edge to it. */
  lemma SecondTurnEntered<D>(s: Search<D>, log: seq<Call>, a: nat)
    requires WellFormed(s) && IsRun(s, log) && a < |Queued(s, log)| && !FirstTurn(s.starts, Queued(s, log), a)
    ensures !EnteredNotAgain(s, Queued(s, log)[a])
  {
    hide Entered;
    var i := PlaceArrival(s, log, a);
    var upTo := log[..i + 1];
    assert Last(upTo) == log[i] && Front(upTo) == log[..i];
    ReferentReachable(s, upTo);
    TableGrows(s, Front(upTo));
  }

  /** A start that has edges was added as visited, or no edge of a reachable node leads to it. */
  ghost predicate StartsEnteredNotAgain<D>(s: Search<D>) {
    forall n :: n in s.starts && n in s.g && s.g[n] != [] ==> EnteredNotAgain(s, n)
  }

  /**
   Level order, for every run: of two handler calls the earlier one has an origin no further
   from the starts, provided that no edge leads back to an un-marked start with edges.
   */
  lemma CallsInLevelOrder<D(!new)>(s: Search<D>, log: seq<Call>)
    requires Marks(s) && IsRun(s, log) && StartsEnteredNotAgain(s)
    ensures LevelOrdered(s.g, s.starts, GivenUp(s, GoingOn(s, log)), log)
  {
    hide GivenUp, LevelOrdered, Queued, EnteredNotAgain;
    GoingOnRuns(s, log);
    var before := GoingOn(s, log);
    RunWithin(s, before);
    var q := Queued(s, before);
    forall a | 0 <= a < |q| && !FirstTurn(s.starts, q, a) ensures q[a] in s.g && s.g[q[a]] == [] {
      SecondTurnEntered(s, before, a);
    }
    OrderedUnlessSecondTurns(s, log);
  }

  /** No start has an edge to a start. */
  ghost predicate StartsApart(g: Graph, starts: seq<Node>) {
    forall m, n :: m in starts && n in starts ==> !Linked(g, m, n)
  }

  /** A start keeps to one turn exactly if no place behind the starts is its own. */
  lemma SecondTurnIff<D(!new)>(s: Search<D>, log: seq<Call>, n: Node)
    requires Marks(s) && IsRun(s, log) && GoesOn(s, log) && Complete(s, log) && n in s.starts
    ensures !OneTurn(s, log, n) <==> exists a :: |s.starts| <= a < |Queued(s, log)| && Queued(s, log)[a] == n
  {
    hide Queued, OneTurn;
    QueuedTimes(s, log, n);
    StartsQueued(s, log);
    var q, k := Queued(s, log), |s.starts|;
    assert q == q[..k] + q[k..] && q[..k] == s.starts;
    assert Times(q, n) == Times(s.starts, n) + Times(q[k..], n);
    StartsCounted(q[k..], n);
    if n in q[k..] {
      var i :| 0 <= i < |q[k..]| && q[k..][i] == n;
      assert q[k + i] == n;
    }
    if a :| k <= a < |q| && q[a] == n {
      assert q[k..][a - k] == n;
    }
  }

  lemma SecondTurnAt<D(!new)>(s: Search<D>, log: seq<Call>, a: nat)
    requires Marks(s) && IsRun(s, log) && GoesOn(s, log) && Complete(s, log)
    requires a < |Queued(s, log)| && !FirstTurn(s.starts, Queued(s, log), a)
    ensures Queued(s, log)[a] in s.starts && !OneTurn(s, log, Queued(s, log)[a])
  {
    hide Queued, OneTurn, IsRun, Complete;
    var n := Queued(s, log)[a];
    SecondTurnIff(s, log, n);
    assert |s.starts| <= a < |Queued(s, log)| && Queued(s, log)[a] == n;
  }

  /** The second turn of a start with edges comes after a call from the node whose edge led to it. */
  lemma SecondTurnOutOfOrder<D(!new)>(s: Search<D>, log: seq<Call>, a: nat) returns (i: nat, c: nat)
    requires Marks(s) && IsRun(s, log) && GoesOn(s, log) && Complete(s, log) && |s.starts| <= a < |Queued(s, log)|
    requires Queued(s, log)[a] in s.g && s.g[Queued(s, log)[a]] != []
    ensures i < c < |log| && Linked(s.g, log[i].origin, Queued(s, log)[a]) && log[c].origin == Queued(s, log)[a]
  {
    hide Queued, EdgesOf, IsRun;
    var q := Queued(s, log);
    i := PlaceArrival(s, log, a);
    EdgeComesFromQueue(s.g, Queued(s, log[..i]), i);
    c := |EdgesOf(s.g, q[..a])|;
    CompleteRunReports(s, log);
    EdgeAtCursor(s.g, q, a, 0);
    assert Reported(log)[c] == (log[c].origin, log[c].edge);
  }

  /**
   When no start has an edge to a start, a complete run that marks everything is in level
   order exactly if no start that has edges is queued a second time.
   */
  lemma LevelOrderIff<D(!new)>(s: Search<D>, log: seq<Call>)
    requires Marks(s) && IsRun(s, log) && GoesOn(s, log) && Complete(s, log) && StartsApart(s.g, s.starts)
    ensures LevelOrdered(s.g, s.starts, GivenUp(s, log), log)
       <==> forall n :: n in s.starts && n in s.g && s.g[n] != [] ==> OneTurn(s, log, n)
  {
    hide GivenUp, Queued, OneTurn, IsRun, Complete;
    var q := Queued(s, log);
    RunWithin(s, log);
    if forall n :: n in s.starts && n in s.g && s.g[n] != [] ==> OneTurn(s, log, n) {
      forall a | 0 <= a < |q| && !FirstTurn(s.starts, q, a) ensures q[a] in s.g && s.g[q[a]] == [] {
        SecondTurnAt(s, log, a);
      }
      OrderedUnlessSecondTurns(s, log);
    }
    if LevelOrdered(s.g, s.starts, GivenUp(s, log), log) {
      forall n | n in s.starts && n in s.g && s.g[n] != [] ensures OneTurn(s, log, n) {
        SecondTurnIff(s, log, n);
        if a :| |s.starts| <= a < |q| && q[a] == n {
          var i, c := SecondTurnOutOfOrder(s, log, a);
          assert NoFurther(s.g, s.starts, GivenUp(s, log), log[i].origin, log[c].origin);
          FurtherThanStart(s.g, s.starts, GivenUp(s, log), log[i].origin, n);
        }
      }
    }
  }

  /** A node that is no start is further than a start. */
  lemma FurtherThanStart(g: Graph, starts: seq<Node>, avoid: set<Node>, o: Node, n: Node)
    requires o !in starts && n in starts
    ensures !NoFurther(g, starts, avoid, o, n)
  {
    assert StartPath(g, starts, avoid, n, [n]);
    forall c: nat | IsDistance(g, starts, avoid, o, c) ensures c > 0 {
      var p :| StartPath(g, starts, avoid, o, p) && |p| == c + 1;
    }
  }

  // ---------------------------------------------------------------------------
  // Recorded first arrivals
  // ---------------------------------------------------------------------------

  /** The handler stores the origin and edge of each node's first arrival, and keeps what is stored. */
  ghost predicate RecordsArrivals(h: Handler<Arrival>) {
    forall log, data :: log != [] ==>
      h(log, data).data == if Last(log).first then Reached(Last(log).origin, Last(log).edge) else data
  }

  ghost predicate Recording(s: Search<Arrival>) {
    Marks(s) && s.blank == Unset && RecordsArrivals(s.handler)
  }

  lemma {:induction false} TableIsArrivals(s: Search<Arrival>, log: seq<Call>)
    requires Recording(s) && IsRun(s, log) && GoesOn(s, log)
    ensures Table(s, log) == Arrivals(s, log)
    decreases |log|
  {
    if log != [] {
      TableIsArrivals(s, Front(log));
    }
  }

  /** Walks the recorded arrivals back from a node, `n` steps or until a start. */
  ghost function WalkBack(visited: map<Node, Arrival>, starts: seq<Node>, v: Node, n: nat): seq<Node>
    decreases n
  {
    if n == 0 || v in starts || v !in visited || visited[v].Unset? then
      [v]
    else
      WalkBack(visited, starts, visited[v].origin, n - 1) + [v]
  }

  /** A table that holds the first arrivals of all nodes with a depth. */
  ghost predicate HoldsArrivals(s: Search<Arrival>, log: seq<Call>, l: Layers, visited: map<Node, Arrival>) {
    forall v :: v in l.depth && v !in s.starts ==> v in visited && v in Arrivals(s, log) && visited[v] == Arrivals(s, log)[v]
  }

  lemma {:induction false} WalkBackIsPath(s: Search<Arrival>, log: seq<Call>, k: nat, j: nat, l: Layers,
                                          visited: map<Node, Arrival>, v: Node, n: nat)
    requires Marks(s) && Levels(s, log, k, j, l) && HoldsArrivals(s, log, l, visited) && v in l.depth && n >= l.depth[v]
    ensures var p := WalkBack(visited, s.starts, v, n);
            StartPath(s.g, s.starts, GivenUp(s, log), v, p) && |p| == l.depth[v] + 1
    decreases l.depth[v]
  {
    hide Table, Queued, Arrivals, EdgesOf, AtCursor, QueueSorted, FollowedAll, FollowedBelow, TwoLevels, IsRun, Closed;
    if v in s.starts {
      PlacesHold(s.starts, Queued(s, log), l);
    } else {
      var Reached(o, e) := visited[v];
      WalkBackIsPath(s, log, k, j, l, visited, o, n - 1);
      EdgeLinks(s.g, o, e);
      StartPathExtends(s.g, s.starts, GivenUp(s, log), o, v, WalkBack(visited, s.starts, o, n - 1));
    }
  }

  /** What a last call that fails or stops leaves in the table. */
  lemma TableAfterLast(s: Search<Arrival>, log: seq<Call>)
    requires Recording(s) && IsRun(s, log) && !GoesOn(s, log)
    ensures var before, w := Arrivals(s, Front(log)), Last(log).edge.referent;
            var found := before[w := Reached(Last(log).origin, Last(log).edge)];
            && before == Table(s, Front(log))
            && (Last(log).first <==> w !in before)
            && Table(s, log) == (if Last(log).first && w in Table(s, log) then found else before)
  {
    TableIsArrivals(s, Front(log));
  }

  /** Where a run stands before a last call that finds a new node which is no start. */
  lemma BeforeLast<D(!new)>(s: Search<D>, log: seq<Call>) returns (k: nat, j: nat, l: Layers)
    requires Marks(s) && log != [] && IsRun(s, log) && Last(log).first && Last(log).edge.referent !in s.starts
    ensures var before, o, v := Front(log), Last(log).origin, Last(log).edge.referent;
            && GoesOn(s, before) && Levels(s, before, k, j, l) && Linked(s.g, o, v)
            && k < |l.level| && o in l.depth && l.depth[o] == l.level[k] && o !in GivenUp(s, before) && v !in l.depth
  {
    hide Table, Queued, EdgesOf, GivenUp, Arrivals, ArrivedFromAbove, FollowedBelow, TwoLevels;
    var before := Front(log);
    k, j, l := LevelsHold(s, before);
    k, j := LevelsAdvance(s, before, k, j, l);
    LastCallAtCursor(s, log, k, j);
    var q := Queued(s, before);
    PlaceHolds(s.g, s.starts, q, k, l);
    NewFoundInFirstTurn(s.g, s.starts, q, k, j, Table(s, before).Keys, l);
    NotGivenUp(s, before, q[k]);
    EdgeLinks(s.g, q[k], s.g[q[k]][j]);
  }

  /** A node found next is one edge further than the queue's front. */
  lemma NextDistance<D(!new)>(s: Search<D>, log: seq<Call>, k: nat, j: nat, l: Layers, o: Node, v: Node)
    requires Marks(s) && Levels(s, log, k, j, l) && Linked(s.g, o, v)
    requires k < |l.level| && o in l.depth && l.depth[o] == l.level[k] && o !in GivenUp(s, log) && v !in l.depth
    ensures IsDistance(s.g, s.starts, GivenUp(s, log), v, l.depth[o] + 1)
  {
    hide Levels, GivenUp, Marks;
    var p := DepthPath(s, log, k, j, l, o);
    StartPathExtends(s.g, s.starts, GivenUp(s, log), o, v, p);
    forall r | StartPath(s.g, s.starts, GivenUp(s, log), v, r) ensures |r| >= l.depth[o] + 2 {
      NoShorterPath(s, log, k, j, l, r);
    }
  }

  /** The walk from the node found by a last call that fails or stops is shortest as well. */
  lemma LastFound(s: Search<Arrival>, log: seq<Call>, n: nat) returns (d: nat)
    requires Recording(s) && IsRun(s, log) && !GoesOn(s, log)
    requires Last(log).first && Last(log).edge.referent in Table(s, log) && Last(log).edge.referent !in s.starts
    ensures IsDistance(s.g, s.starts, GivenUp(s, Front(log)), Last(log).edge.referent, d)
    ensures n >= d ==> var p := WalkBack(Table(s, log), s.starts, Last(log).edge.referent, n);
              StartPath(s.g, s.starts, GivenUp(s, Front(log)), Last(log).edge.referent, p) && |p| == d + 1
  {
    hide IsRun, Queued, EdgesOf, Table, GivenUp, Arrivals, Levels, GoesOn, IsDistance, HoldsArrivals, StartPath;
    GoingOnRuns(s, log);
    var before, o, v := Front(log), Last(log).origin, Last(log).edge.referent;
    var k, j, l := BeforeLast(s, log);
    TableHoldsArrivals(s, log, k, j, l);
    NextDistance(s, before, k, j, l, o, v);
    d := l.depth[o] + 1;
    if n >= d {
      var visited := Table(s, log);
      WalkBackIsPath(s, before, k, j, l, visited, o, n - 1);
      StartPathExtends(s.g, s.starts, GivenUp(s, before), o, v, WalkBack(visited, s.starts, o, n - 1));
    }
  }

  /** The table holds the first arrivals, also after a last call that fails or stops. */
  lemma TableHoldsArrivals(s: Search<Arrival>, log: seq<Call>, k: nat, j: nat, l: Layers)
    requires Recording(s) && IsRun(s, log) && Levels(s, GoingOn(s, log), k, j, l)
    ensures HoldsArrivals(s, GoingOn(s, log), l, Table(s, log))
    ensures !GoesOn(s, log) && Last(log).first && Last(log).edge.referent in Table(s, log) ==>
              Table(s, log)[Last(log).edge.referent] == Reached(Last(log).origin, Last(log).edge)
  {
    hide Table, Queued, Arrivals, GivenUp, AtCursor, IsRun, QueueSorted, FollowedAll, FollowedBelow, TwoLevels;
    GoingOnRuns(s, log);
    TableIsArrivals(s, GoingOn(s, log));
    if !GoesOn(s, log) {
      TableAfterLast(s, log);
    }
  }

  lemma NotGivenUp<D>(s: Search<D>, log: seq<Call>, v: Node)
    requires v in Queued(s, log)
    ensures v !in GivenUp(s, log)
  {
  }

  /**
   At any point of a run whose handler records first arrivals, also when its last call stops
   it: walking the table back from a visited node ends at a start after finitely many
   steps, and the walk is a shortest path.
   */
  lemma RecordedPathsAreShortest(s: Search<Arrival>, log: seq<Call>, v: Node, n: nat) returns (d: nat)
    requires Recording(s) && IsRun(s, log) && (v in Table(s, log) || v in s.starts)
    ensures IsDistance(s.g, s.starts, GivenUp(s, GoingOn(s, log)), v, d)
    ensures n >= d ==> var p := WalkBack(Table(s, log), s.starts, v, n);
              StartPath(s.g, s.starts, GivenUp(s, GoingOn(s, log)), v, p) && |p| == d + 1
  {
    hide IsRun, Queued, EdgesOf, Table, GivenUp, Arrivals, HoldsArrivals, IsDistance, StartPath;
    GoingOnRuns(s, log);
    var before := GoingOn(s, log);
    if !GoesOn(s, log) {
      TableAfterLast(s, log);
    }
    if v in Table(s, before) || v in s.starts {
      var k, j, l := LevelsHold(s, before);
      d := l.depth[v];
      DepthIsDistance(s, before, k, j, l, v);
      if n >= d {
        TableHoldsArrivals(s, log, k, j, l);
        WalkBackIsPath(s, before, k, j, l, Table(s, log), v, n);
      }
    } else {
      d := LastFound(s, log, n);
    }
  }

  /** A complete run visits the end of every path of at least one edge that passes no node given up. */
  lemma CompleteRunVisits<D(!new)>(s: Search<D>, log: seq<Call>, v: Node, p: seq<Node>)
    requires Marks(s) && IsRun(s, log) && GoesOn(s, log) && Complete(s, log)
    requires StartPath(s.g, s.starts, GivenUp(s, log), v, p) && |p| > 1
    ensures v in Table(s, log)
  {
    var q := Queued(s, log);
    assert q[..|q|] == q;
    var l := LevelsAtEveryCursor(s, log, |q|, 0);
    NoShorterPath(s, log, |q|, 0, l, p);
  }
}
