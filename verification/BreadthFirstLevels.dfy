/**
 Levels in the runs of a breadth-first search that marks every new referent. The starts may
 be added in any way and the handler may abandon nodes; distances then count paths past no
 node given up.

 A start that was not added as visited can be queued again when an edge enters it. Such a
 second turn finds nothing new, since the start's first turn followed the same edges.
 */
module BreadthFirstLevels {
  import opened Graphs
  import opened BreadthFirsts
  import opened BreadthFirstLaws

  /** The first arrival at a node; `Unset` at a start added as visited. */
  datatype Arrival = Unset | Reached(origin: Node, edge: Edge)

  ghost predicate Marks<D(!new)>(s: Search<D>) {
    WellFormed(s) && AlwaysMarks(s.handler)
  }

  /** The first call, if any, that reached each visited node. */
  ghost function Arrivals<D>(s: Search<D>, log: seq<Call>): map<Node, Arrival> {
    if log == [] then
      map n | n in s.marked :: Unset
    else if Last(log).first then
      Arrivals(s, Front(log))[Last(log).edge.referent := Reached(Last(log).origin, Last(log).edge)]
    else
      Arrivals(s, Front(log))
  }

  // ---------------------------------------------------------------------------
  // The level invariant
  // ---------------------------------------------------------------------------

  /** The depth of each start and visited node, and the level of each place in the queue. */
  datatype Layers = Layers(depth: map<Node, nat>, level: seq<nat>)

  /** A place in the queue that is not the second turn of a start. */
  ghost predicate FirstTurn(starts: seq<Node>, q: seq<Node>, a: nat)
    requires a < |q|
  {
    a < |starts| || q[a] !in starts
  }

  /** Levels never fall along the queue; in its first turn a node stands at the level of its depth. */
  ghost predicate QueueSorted(starts: seq<Node>, q: seq<Node>, l: Layers) {
    && starts <= q && |l.level| == |q|
    && (forall v :: v in starts ==> v in l.depth && l.depth[v] == 0)
    && (forall a :: 0 <= a < |q| ==> q[a] in l.depth && (FirstTurn(starts, q, a) ==> l.depth[q[a]] == l.level[a]))
    && (forall a, b :: 0 <= a <= b < |q| ==> l.level[a] <= l.level[b])
  }

  /** No node or place is more than one level below the queue's front. */
  ghost predicate TwoLevels(k: nat, l: Layers) {
    k < |l.level| ==>
      && (forall v :: v in l.depth ==> l.depth[v] <= l.level[k] + 1)
      && (forall a :: 0 <= a < |l.level| ==> l.level[a] <= l.level[k] + 1)
  }

  /** Every node but the starts was reached first from a queued node one level up. */
  ghost predicate ArrivedFromAbove(g: Graph, starts: seq<Node>, q: seq<Node>, arrivals: map<Node, Arrival>,
                                   depth: map<Node, nat>)
  {
    forall v :: v in depth && v !in starts ==>
      && v in arrivals && arrivals[v].Reached?
      && var Reached(o, e) := arrivals[v];
         o in g && e in g[o] && e.referent == v && o in q && o in depth && depth[v] == depth[o] + 1
  }

  /** The first `j` edges of `o` lead to visited nodes at most one level down. */
  ghost predicate FollowedBelow(g: Graph, o: Node, j: nat, visited: set<Node>, depth: map<Node, nat>)
    requires o in g && j <= |g[o]|
  {
    && o in depth
    && forall i :: 0 <= i < j ==>
         var w := g[o][i].referent; w in visited && w in depth && depth[w] <= depth[o] + 1
  }

  ghost predicate FollowedAll(g: Graph, q: seq<Node>, k: nat, visited: set<Node>, depth: map<Node, nat>)
    requires Within(g, q) && k <= |q|
  {
    forall a :: 0 <= a < k ==> FollowedBelow(g, q[a], |g[q[a]]|, visited, depth)
  }

  ghost predicate Levels<D>(s: Search<D>, log: seq<Call>, k: nat, j: nat, l: Layers) {
    var q, visited := Queued(s, log), Table(s, log).Keys;
    && AtCursor(s, log, k, j)
    && (forall v :: v in l.depth <==> v in visited || v in s.starts)
    && (forall v :: v in l.depth ==> v in q || v in GivenUp(s, log))
    && QueueSorted(s.starts, q, l)
    && TwoLevels(k, l)
    && ArrivedFromAbove(s.g, s.starts, q, Arrivals(s, log), l.depth)
    && FollowedAll(s.g, q, k, visited, l.depth)
    && (k < |q| ==> FollowedBelow(s.g, q[k], j, visited, l.depth))
  }

  lemma LevelsBegin<D(!new)>(s: Search<D>) returns (l: Layers)
    requires Marks(s)
    ensures Levels(s, [], 0, 0, l)
  {
    l := Layers(map n | n in s.starts :: 0, seq(|s.starts|, _ => 0));
    Beginning(s);
    assert forall a :: 0 <= a < |s.starts| ==> s.starts[a] in s.starts;
  }

  lemma LevelsNextNode<D>(s: Search<D>, log: seq<Call>, k: nat, j: nat, l: Layers)
    requires Levels(s, log, k, j, l) && k < |Queued(s, log)| && j == |s.g[Queued(s, log)[k]]|
    ensures Levels(s, log, k + 1, 0, l)
  {
    hide Table, Queued, GivenUp, Arrivals, ArrivedFromAbove, QueueSorted, TwoLevels, FollowedAll, FollowedBelow;
    NextNode(s, log, k);
    NextTwoLevels(s.starts, Queued(s, log), k, l);
    NextFollowed(s.g, Queued(s, log), k, Table(s, log).Keys, l.depth);
  }

  lemma NextTwoLevels(starts: seq<Node>, q: seq<Node>, k: nat, l: Layers)
    requires QueueSorted(starts, q, l) && TwoLevels(k, l) && k < |q|
    ensures TwoLevels(k + 1, l) && (k + 1 < |q| ==> q[k + 1] in l.depth)
  {
  }

  lemma NextFollowed(g: Graph, q: seq<Node>, k: nat, visited: set<Node>, depth: map<Node, nat>)
    requires Within(g, q) && k < |q| && (k + 1 < |q| ==> q[k + 1] in depth)
    requires FollowedAll(g, q, k, visited, depth) && FollowedBelow(g, q[k], |g[q[k]]|, visited, depth)
    ensures FollowedAll(g, q, k + 1, visited, depth) && (k + 1 < |q| ==> FollowedBelow(g, q[k + 1], 0, visited, depth))
  {
  }

  /** Skips nodes whose edges are all reported. */
  lemma LevelsAdvance<D>(s: Search<D>, log: seq<Call>, k: nat, j: nat, l: Layers) returns (k': nat, j': nat)
    requires Levels(s, log, k, j, l)
    ensures Levels(s, log, k', j', l) && (k' < |Queued(s, log)| ==> j' < |s.g[Queued(s, log)[k']]|)
    decreases |Queued(s, log)| - k
  {
    if k < |Queued(s, log)| && j == |s.g[Queued(s, log)[k]]| {
      LevelsNextNode(s, log, k, j, l);
      k', j' := LevelsAdvance(s, log, k + 1, 0, l);
    } else {
      k', j' := k, j;
    }
  }

  /** What one call that goes on does to a search that marks every new referent. */
  lemma LevelStepLaw<D(!new)>(s: Search<D>, log: seq<Call>, call: Call)
    requires Marks(s) && IsRun(s, log + [call]) && GoesOn(s, log + [call])
    ensures var log', w := log + [call], call.edge.referent;
            && Front(log') == log && Last(log') == call
            && Table(s, log').Keys == Table(s, log).Keys + {w}
            && (call.first <==> w !in Table(s, log))
            && Arrivals(s, log') == (if call.first then Arrivals(s, log)[w := Reached(call.origin, call.edge)] else Arrivals(s, log))
            && Queued(s, log') == (if Enqueues(s, log') then Queued(s, log) + [w] else Queued(s, log))
            && (Enqueues(s, log') ==> call.first)
            && (call.first && !Enqueues(s, log') ==> w in Queued(s, log') || w in GivenUp(s, log'))
            && (forall v :: v in GivenUp(s, log) && v != w ==> v in GivenUp(s, log'))
            && (!call.first ==> GivenUp(s, log') == GivenUp(s, log))
  {
    var log' := log + [call];
    assert Front(log') == log && Last(log') == call;
    assert Queued(s, log) + [] == Queued(s, log) && Abandoned(s, log) + {} == Abandoned(s, log);
    if !call.first {
      assert Queued(s, log') == Queued(s, log) && Abandoned(s, log') == Abandoned(s, log);
    }
  }

  /** A start's first place in the queue. */
  lemma StartPlace(starts: seq<Node>, q: seq<Node>, v: Node) returns (a: nat)
    requires starts <= q && v in starts
    ensures a < |starts| && a < |q| && q[a] == v
  {
    a :| 0 <= a < |starts| && starts[a] == v;
  }

  /** Only in its first turn does a node find something new. */
  lemma NewFoundInFirstTurn(g: Graph, starts: seq<Node>, q: seq<Node>, k: nat, j: nat, visited: set<Node>, l: Layers)
    requires Within(g, q) && k < |q| && QueueSorted(starts, q, l) && FollowedAll(g, q, k, visited, l.depth)
    requires j < |g[q[k]]|
    ensures FirstTurn(starts, q, k) || (g[q[k]][j].referent in visited && FollowedBelow(g, q[k], |g[q[k]]|, visited, l.depth))
  {
    if !FirstTurn(starts, q, k) {
      var a := StartPlace(starts, q, q[k]);
      assert FollowedBelow(g, q[a], |g[q[a]]|, visited, l.depth);
    }
  }

  lemma LevelsStep<D(!new)>(s: Search<D>, log: seq<Call>, k: nat, j: nat, l: Layers, call: Call) returns (l': Layers)
    requires Marks(s) && Levels(s, log, k, j, l) && GoesOn(s, log)
    requires k < |Queued(s, log)| && j < |s.g[Queued(s, log)[k]]|
    requires call == Call(Queued(s, log)[k], s.g[Queued(s, log)[k]][j], s.g[Queued(s, log)[k]][j].referent !in Table(s, log))
    requires GoesOn(s, log + [call])
    ensures Levels(s, log + [call], k, j + 1, l')
  {
    hide Table, Queued, GivenUp, Arrivals, AtCursor, IsRun, GoesOn, Decided, QueueSorted, ArrivedFromAbove, FollowedAll,
      FollowedBelow, Within, Closed, Enqueues, TwoLevels, FirstTurn;
    var log', q, q' := log + [call], Queued(s, log), Queued(s, log + [call]);
    var o, w, visited := call.origin, call.edge.referent, Table(s, log).Keys;
    NextAtCursor(s, log, k, j, call);
    LevelStepLaw(s, log, call);
    CursorWithin(s, log, k, j);
    CursorWithin(s, log', k, j + 1);
    PlaceHolds(s.g, s.starts, q, k, l);
    NewFoundInFirstTurn(s.g, s.starts, q, k, j, visited, l);
    if call.first {
      l' := NextLayers(s.starts, l, k, w, Enqueues(s, log'));
      SortedStep(s.starts, q, k, l, w, Enqueues(s, log'), visited);
      ArrivedStep(s.g, s.starts, q, Arrivals(s, log), l.depth, o, call.edge, q', l'.depth);
      FollowedStep(s.g, q, k, j, visited, l.depth, visited + {w}, l'.depth, q');
    } else {
      l' := l;
      OldReferent(s.g, s.starts, q, k, j, visited, l);
      assert visited + {w} == visited;
      FollowedStep(s.g, q, k, j, visited, l.depth, visited, l.depth, q');
    }
  }

  lemma CursorWithin<D>(s: Search<D>, log: seq<Call>, k: nat, j: nat)
    requires AtCursor(s, log, k, j)
    ensures Within(s.g, Queued(s, log)) && k <= |Queued(s, log)|
  {
  }

  lemma PlaceHolds(g: Graph, starts: seq<Node>, q: seq<Node>, k: nat, l: Layers)
    requires Within(g, q) && k < |q| && QueueSorted(starts, q, l)
    ensures q[k] in l.depth && q[k] in g && q[k] in q && |l.level| == |q|
    ensures FirstTurn(starts, q, k) ==> l.depth[q[k]] == l.level[k]
    ensures forall v :: v in starts ==> v in l.depth && l.depth[v] == 0
  {
  }

  /** The layers after the `k`-th node has found `w`, which keeps depth 0 if it is a start. */
  ghost function NextLayers(starts: seq<Node>, l: Layers, k: nat, w: Node, enqueued: bool): Layers
    requires k < |l.level|
  {
    var below := l.level[k] + 1;
    Layers(if w in starts then l.depth else l.depth[w := below], if enqueued then l.level + [below] else l.level)
  }

  lemma SortedStep(starts: seq<Node>, q: seq<Node>, k: nat, l: Layers, w: Node, enqueued: bool, visited: set<Node>)
    requires QueueSorted(starts, q, l) && k < |q| && TwoLevels(k, l)
    requires w !in l.depth || w in starts
    ensures var l' := NextLayers(starts, l, k, w, enqueued);
            && QueueSorted(starts, if enqueued then q + [w] else q, l')
            && TwoLevels(k, l')
            && (forall v :: v in l.depth ==> v in l'.depth && l'.depth[v] == l.depth[v])
            && (forall v :: v in l'.depth <==> v in l.depth || v == w)
            && l'.depth[w] <= l.level[k] + 1
  {
    var l' := NextLayers(starts, l, k, w, enqueued);
    var q' := if enqueued then q + [w] else q;
    assert forall a :: 0 <= a < |q| ==> q'[a] == q[a] && l'.level[a] == l.level[a];
  }

  lemma ArrivedStep(g: Graph, starts: seq<Node>, q: seq<Node>, arrivals: map<Node, Arrival>, depth: map<Node, nat>,
                    o: Node, e: Edge, q': seq<Node>, depth': map<Node, nat>)
    requires ArrivedFromAbove(g, starts, q, arrivals, depth)
    requires o in g && e in g[o] && o in q && o in depth && q <= q'
    requires forall v :: v in depth' <==> v in depth || v == e.referent
    requires forall v :: v in depth ==> depth'[v] == depth[v]
    requires e.referent in starts || (e.referent !in depth && depth'[e.referent] == depth[o] + 1)
    ensures ArrivedFromAbove(g, starts, q', arrivals[e.referent := Reached(o, e)], depth')
  {
    assert forall v :: v in q ==> v in q';
  }

  /** A referent visited before is at most one level down. */
  lemma OldReferent(g: Graph, starts: seq<Node>, q: seq<Node>, k: nat, j: nat, visited: set<Node>, l: Layers)
    requires Within(g, q) && k < |q| && j < |g[q[k]]| && QueueSorted(starts, q, l) && TwoLevels(k, l)
    requires g[q[k]][j].referent in visited && g[q[k]][j].referent in l.depth
    requires FirstTurn(starts, q, k) || FollowedBelow(g, q[k], |g[q[k]]|, visited, l.depth)
    ensures l.depth[g[q[k]][j].referent] <= l.depth[q[k]] + 1
  {
  }

  /** Following one more edge of the `k`-th node, whose referent is at most one level down. */
  lemma FollowedStep(g: Graph, q: seq<Node>, k: nat, j: nat, visited: set<Node>, depth: map<Node, nat>,
                     visited': set<Node>, depth': map<Node, nat>, q': seq<Node>)
    requires Within(g, q) && Within(g, q') && k < |q| && q <= q' && j < |g[q[k]]|
    requires FollowedAll(g, q, k, visited, depth) && FollowedBelow(g, q[k], j, visited, depth)
    requires visited <= visited' && forall v :: v in depth ==> v in depth' && depth'[v] == depth[v]
    requires var w := g[q[k]][j].referent; w in visited' && w in depth' && depth'[w] <= depth'[q[k]] + 1
    ensures FollowedAll(g, q', k, visited', depth') && FollowedBelow(g, q'[k], j + 1, visited', depth')
  {
    assert forall a :: 0 <= a <= k ==> q'[a] == q[a];
    assert forall a :: 0 <= a < k ==> FollowedBelow(g, q[a], |g[q[a]]|, visited, depth);
  }

  /** The level invariant holds throughout every run, at the cursor just past its last call. */
  lemma {:induction false} LevelsHold<D(!new)>(s: Search<D>, log: seq<Call>) returns (k: nat, j: nat, l: Layers)
    requires Marks(s) && IsRun(s, log) && GoesOn(s, log)
    ensures Levels(s, log, k, j, l)
    ensures if log == [] then k == j == 0 else k < |Queued(s, log)| && 0 < j
    decreases |log|
  {
    hide Table, Queued, GivenUp, Arrivals, AtCursor, EdgesOf, QueueSorted, ArrivedFromAbove, FollowedAll, FollowedBelow,
      TwoLevels;
    if log == [] {
      k, j := 0, 0;
      l := LevelsBegin(s);
    } else {
      k, j, l := LevelsHold(s, Front(log));
      k, j := LevelsAdvance(s, Front(log), k, j, l);
      LastCallAtCursor(s, log, k, j);
      NextAtCursor(s, Front(log), k, j, Last(log));
      l := LevelsStep(s, Front(log), k, j, l, Last(log));
      j := j + 1;
    }
  }

  /** Moving the cursor past nodes without edges still to report. */
  lemma LevelsReach<D>(s: Search<D>, log: seq<Call>, k: nat, j: nat, l: Layers, k': nat, j': nat)
    requires Levels(s, log, k, j, l) && AtCursor(s, log, k', j') && k <= k'
    ensures Levels(s, log, k', j', l)
    decreases k' - k
  {
    hide Table, Queued, GivenUp, Arrivals, EdgesOf, QueueSorted, ArrivedFromAbove, FollowedAll, FollowedBelow, TwoLevels, IsRun;
    if k < k' {
      var q := Queued(s, log);
      assert q[..k'][..k + 1] == q[..k + 1];
      EdgesOfPrefix(s.g, q[..k'], k + 1);
      NodeEdges(s.g, q, k);
      LevelsNextNode(s, log, k, j, l);
      LevelsReach(s, log, k + 1, 0, l, k', j');
    }
  }

  lemma NodeEdges(g: Graph, q: seq<Node>, k: nat)
    requires Within(g, q) && k < |q|
    ensures |EdgesOf(g, q[..k + 1])| == |EdgesOf(g, q[..k])| + |g[q[k]]|
  {
    assert q[..k + 1] == q[..k] + [q[k]];
    EdgesOfAppend(g, q[..k], q[k]);
  }

  /** The level invariant holds at every cursor a run can be at, in particular whenever the loop looks for the next node. */
  lemma LevelsAtEveryCursor<D(!new)>(s: Search<D>, log: seq<Call>, k: nat, j: nat) returns (l: Layers)
    requires Marks(s) && AtCursor(s, log, k, j) && GoesOn(s, log)
    ensures Levels(s, log, k, j, l)
  {
    hide Table, Queued, GivenUp, Arrivals, EdgesOf, QueueSorted, ArrivedFromAbove, FollowedAll, FollowedBelow, TwoLevels, IsRun;
    var k0, j0;
    k0, j0, l := LevelsHold(s, log);
    if k < k0 {
      var q := Queued(s, log);
      assert q[..k0][..k + 1] == q[..k + 1];
      EdgesOfPrefix(s.g, q[..k0], k + 1);
      NodeEdges(s.g, q, k);
      assert false;
    }
    LevelsReach(s, log, k0, j0, l, k, j);
  }

  lemma LastCallAtCursor<D>(s: Search<D>, log: seq<Call>, k: nat, j: nat)
    requires log != [] && IsRun(s, log) && AtCursor(s, Front(log), k, j)
    requires k < |Queued(s, Front(log))| ==> j < |s.g[Queued(s, Front(log))[k]]|
    ensures var q := Queued(s, Front(log));
            && k < |q|
            && Last(log) == Call(q[k], s.g[q[k]][j], s.g[q[k]][j].referent !in Table(s, Front(log)))
            && log == Front(log) + [Last(log)]
  {
    var q := Queued(s, Front(log));
    assert q[..|q|] == q;
    EdgeAtCursor(s.g, q, k, j);
  }
}
