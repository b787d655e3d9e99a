/**
 The breadth-first traversal of `public/UbiNodeBreadthFirst.h`: its two-vector queue, its
 loop, and the run of handler calls it must produce.
 */
module BreadthFirsts {
  import opened Graphs

  // ---------------------------------------------------------------------------
  // The queue
  // ---------------------------------------------------------------------------

  class Queue<T> {
    var head: seq<T>
    var tail: seq<T>
    var frontIndex: nat

    // The population just before the first pop since the vectors were last swapped.
    ghost var populationAtFirstPop: nat

    ghost predicate Valid()
      reads this
    {
      && (frontIndex == 0 ==> tail == [])
      && (frontIndex > 0 ==> frontIndex < |head| == populationAtFirstPop)
    }

    /** The queued elements, front first. */
    ghost function Contents(): seq<T>
      requires Valid()
      reads this
    {
      head[frontIndex..] + tail
    }

    constructor ()
      ensures Valid() && Contents() == [] && frontIndex == 0
    {
      head, tail, frontIndex := [], [], 0;
    }

    predicate Empty()
      reads this
    {
      frontIndex >= |head|
    }

    /** The header's emptiness test looks at `head` alone; no element hides in `tail`. */
    lemma EmptyMeansNoElement()
      requires Valid()
      ensures Empty() <==> Contents() == []
    {
    }

    /** Slots already popped but not freed never outnumber the population at the first pop since the swap. */
    lemma DeadSlotsBounded()
      requires Valid()
      ensures frontIndex == 0 || frontIndex < populationAtFirstPop
      ensures |head| + |tail| == frontIndex + |Contents()|
    {
    }

    method Front() returns (x: T)
      requires Valid() && Contents() != []
      ensures x == Contents()[0]
    {
      x := head[frontIndex];
    }

    method PopFront()
      requires Valid() && Contents() != []
      modifies this
      ensures Valid() && Contents() == old(Contents())[1..]
      ensures populationAtFirstPop == if old(frontIndex) == 0 then |old(Contents())| else old(populationAtFirstPop)
    {
      populationAtFirstPop := if frontIndex == 0 then |Contents()| else populationAtFirstPop;
      frontIndex := frontIndex + 1;
      if frontIndex >= |head| {
        head := [];
        head, tail := tail, head;
        frontIndex := 0;
      }
    }

    method Append(x: T)
      requires Valid()
      modifies this
      ensures Valid() && Contents() == old(Contents()) + [x]
      ensures populationAtFirstPop == old(populationAtFirstPop)
    {
      if frontIndex == 0 {
        head := head + [x];
      } else {
        tail := tail + [x];
      }
    }
  }

  // ---------------------------------------------------------------------------
  // Handlers, and the run a search must make
  // ---------------------------------------------------------------------------

  /** One handler call: the edge reported and whether its referent was not yet visited. */
  datatype Call = Call(origin: Node, edge: Edge, first: bool)

  /** What a handler does in one call: its result, the requests it makes, and what it leaves in the node data. */
  datatype Decision<D> = Decision(ok: bool, stop: bool, abandon: bool, mark: bool, data: D) {
    predicate GoesOn() {
      ok && !stop
    }
  }

  /** A handler may use all calls made so far, the current one last, and the referent's current data. */
  type Handler<!D> = (seq<Call>, D) -> Decision<D>

  /** A graph, the starts in the order added, those added as visited, the default node data, and a handler. */
  datatype Search<!D> = Search(g: Graph, starts: seq<Node>, marked: set<Node>, blank: D, handler: Handler<D>)

  ghost predicate Within(g: Graph, q: seq<Node>) {
    forall i :: 0 <= i < |q| ==> q[i] in g
  }

  ghost predicate WellFormed<D>(s: Search<D>) {
    && Closed(s.g)
    && Within(s.g, s.starts)
    && (forall n :: n in s.marked ==> n in s.starts) && s.marked <= s.g.Keys
  }

  ghost function Last(log: seq<Call>): Call
    requires log != []
  {
    log[|log| - 1]
  }

  ghost function Front(log: seq<Call>): seq<Call>
    requires log != []
  {
    log[..|log| - 1]
  }

  /** The handler's decision in the last of a run's calls. */
  ghost function Decided<D>(s: Search<D>, log: seq<Call>): Decision<D>
    requires log != []
    decreases |log|, 0
  {
    var before := Table(s, Front(log));
    var w := Last(log).edge.referent;
    s.handler(log, if w in before then before[w] else s.blank)
  }

  /** The visited nodes and their data after a run's calls. */
  ghost function Table<D>(s: Search<D>, log: seq<Call>): map<Node, D>
    decreases |log|, 1
  {
    if log == [] then
      map n | n in s.marked :: s.blank
    else
      var before := Table(s, Front(log));
      var w := Last(log).edge.referent;
      var d := Decided(s, log);
      if w in before || (d.ok && d.mark) then before[w := d.data] else before
  }

  /** Whether the last call puts its referent in the queue. */
  ghost predicate Enqueues<D>(s: Search<D>, log: seq<Call>)
    requires log != []
  {
    Last(log).first && Decided(s, log).GoesOn() && !Decided(s, log).abandon
  }

  /** All nodes put in the queue by the starts and a run's calls, in that order. */
  ghost function Queued<D>(s: Search<D>, log: seq<Call>): seq<Node> {
    if log == [] then
      s.starts
    else
      Queued(s, Front(log)) + (if Enqueues(s, log) then [Last(log).edge.referent] else [])
  }

  /** The first `j` edges of a node, each with its origin. */
  ghost function EdgesFrom(g: Graph, n: Node, j: nat): (r: seq<(Node, Edge)>)
    requires n in g && j <= |g[n]|
    ensures |r| == j
  {
    seq(j, i requires 0 <= i < j => (n, g[n][i]))
  }

  /** All edges of all nodes of a queue, in order. */
  ghost function EdgesOf(g: Graph, q: seq<Node>): seq<(Node, Edge)>
    requires Within(g, q)
  {
    if q == [] then
      []
    else
      var n := q[|q| - 1];
      EdgesOf(g, q[..|q| - 1]) + EdgesFrom(g, n, |g[n]|)
  }

  lemma {:induction false} QueuedInGraph<D>(s: Search<D>, log: seq<Call>)
    requires WellFormed(s) && forall i :: 0 <= i < |log| ==> log[i].edge.referent in s.g
    ensures Within(s.g, Queued(s, log))
    decreases |log|
  {
    if log != [] {
      QueuedInGraph(s, Front(log));
    }
  }

  /**
   The law of a run: the i-th call reports the i-th edge of all nodes queued before it, and
   says `first` exactly when the referent is not in the table. No call follows a failing or
   stopping one.
   */
  ghost predicate IsRun<D>(s: Search<D>, log: seq<Call>) {
    log == [] ||
    (IsRun(s, Front(log)) && GoesOn(s, Front(log)) && IsNext(s, Front(log), Last(log)))
  }

  ghost predicate GoesOn<D>(s: Search<D>, log: seq<Call>) {
    log == [] || Decided(s, log).GoesOn()
  }

  ghost predicate IsNext<D>(s: Search<D>, log: seq<Call>, call: Call) {
    && Within(s.g, Queued(s, log))
    && |log| < |EdgesOf(s.g, Queued(s, log))|
    && (call.origin, call.edge) == EdgesOf(s.g, Queued(s, log))[|log|]
    && (call.first <==> call.edge.referent !in Table(s, log))
  }

  /** Every edge of every queued node has been reported. */
  ghost predicate Complete<D>(s: Search<D>, log: seq<Call>) {
    && Within(s.g, Queued(s, log))
    && |log| == |EdgesOf(s.g, Queued(s, log))|
  }

  /** No run makes more than `n` calls. */
  ghost predicate AtMost<D>(s: Search<D>, n: nat) {
    forall log :: IsRun(s, log) ==> |log| <= n
  }

  /** The runs do not go on for ever. */
  ghost predicate Bounded<D>(s: Search<D>) {
    exists n :: AtMost(s, n)
  }

  lemma EdgesOfAppend(g: Graph, q: seq<Node>, n: Node)
    requires Within(g, q) && n in g
    ensures EdgesOf(g, q + [n]) == EdgesOf(g, q) + EdgesFrom(g, n, |g[n]|)
  {
    assert (q + [n])[..|q|] == q;
  }

  /** A prefix of the queue contributes a prefix of the edges. */
  lemma {:induction false} EdgesOfPrefix(g: Graph, q: seq<Node>, k: nat)
    requires k <= |q| && Within(g, q)
    ensures EdgesOf(g, q[..k]) <= EdgesOf(g, q)
    decreases |q|
  {
    if k == |q| {
      assert q[..k] == q;
    } else {
      EdgesOfPrefix(g, q[..|q| - 1], k);
      assert q[..|q| - 1][..k] == q[..k];
    }
  }

  /** The edge at cursor `j` of the `k`-th queued node is the next one to be reported. */
  lemma EdgeAtCursor(g: Graph, q: seq<Node>, k: nat, j: nat)
    requires k < |q| && Within(g, q) && j < |g[q[k]]|
    ensures var i := |EdgesOf(g, q[..k])| + j;
            i < |EdgesOf(g, q)| && EdgesOf(g, q)[i] == (q[k], g[q[k]][j])
  {
    assert q[..k + 1] == q[..k] + [q[k]];
    EdgesOfAppend(g, q[..k], q[k]);
    EdgesOfPrefix(g, q, k + 1);
  }

  // ---------------------------------------------------------------------------
  // The traversal
  // ---------------------------------------------------------------------------

  class BreadthFirst<D(!new)> {
    const g: Graph
    const handler: Handler<D>
    const blank: D
    const pending: Queue<Node>
    var visited: map<Node, D>
    var traversalBegun: bool
    var stopRequested: bool
    var abandonRequested: bool
    var markReferentAsVisited: bool

    // The calls made to the handler so far.
    var log: seq<Call>

    // The starts in the order added, and those added as visited.
    ghost var starts: seq<Node>
    ghost var marked: set<Node>

    ghost function TheSearch(): Search<D>
      reads this
    {
      Search(g, starts, marked, blank, handler)
    }

    ghost predicate Ready()
      reads this, pending
    {
      && WellFormed(TheSearch()) && pending.Valid()
      && pending.Contents() == starts
      && visited == Table(TheSearch(), [])
      && log == [] && !traversalBegun && !stopRequested && !abandonRequested
    }

    constructor (g: Graph, handler: Handler<D>, blank: D)
      requires Closed(g)
      ensures Ready() && this.g == g && this.handler == handler && this.blank == blank && log == []
      ensures starts == [] && marked == {} && fresh(pending)
    {
      this.g, this.handler, this.blank := g, handler, blank;
      pending := new Queue();
      visited := map[];
      traversalBegun, stopRequested, abandonRequested, markReferentAsVisited := false, false, false, false;
      log, starts, marked := [], [], {};
    }

    method AddStart(node: Node)
      requires Ready() && node in g
      modifies this, pending
      ensures Ready() && starts == old(starts) + [node] && marked == old(marked)
    {
      pending.Append(node);
      starts := starts + [node];
    }

    method AddStartVisited(node: Node)
      requires Ready() && node in g
      modifies this, pending
      ensures Ready() && starts == old(starts) + [node] && marked == old(marked) + {node}
    {
      if node !in visited {
        visited := visited[node := blank];
      }
      pending.Append(node);
      starts, marked := starts + [node], marked + {node};
    }

    method Stop()
      modifies this`stopRequested
      ensures stopRequested
    {
      stopRequested := true;
    }

    method AbandonReferent()
      modifies this`abandonRequested
      ensures abandonRequested
    {
      abandonRequested := true;
    }

    method DoNotMarkReferentAsVisited()
      modifies this`markReferentAsVisited
      ensures !markReferentAsVisited
    {
      markReferentAsVisited := false;
    }

    /** Calls the handler, which makes its requests through the traversal's own methods. */
    method CallHandler(call: Call, data: D) returns (ok: bool, data': D)
      modifies this`log, this`stopRequested, this`abandonRequested, this`markReferentAsVisited
      ensures log == old(log) + [call]
      ensures var d := handler(log, data);
              && ok == d.ok && data' == d.data
              && stopRequested == (old(stopRequested) || d.stop)
              && abandonRequested == (old(abandonRequested) || d.abandon)
              && markReferentAsVisited == (old(markReferentAsVisited) && d.mark)
    {
      log := log + [call];
      var d := handler(log, data);
      if d.stop {
        Stop();
      }
      if d.abandon {
        AbandonReferent();
      }
      if !d.mark {
        DoNotMarkReferentAsVisited();
      }
      return d.ok, d.data;
    }

    /** Between two handler calls: edge `j` of the `k`-th queued node is next. */
    ghost predicate Exploring(k: nat, j: nat)
      reads this, pending
    {
      && WellFormed(TheSearch()) && pending.Valid()
      && traversalBegun && !stopRequested && !abandonRequested
      && AtCursor(TheSearch(), log, k, j) && GoesOn(TheSearch(), log)
      && visited == Table(TheSearch(), log) && visited.Keys <= g.Keys
    }

    /** The body of the inner loop: reports one edge, and says whether to return and with what. */
    method TraverseEdge(origin: Node, edge: Edge, ghost k: nat, ghost j: nat) returns (done: bool, ok: bool)
      requires Exploring(k, j)
      requires k < |Queued(TheSearch(), log)| && origin == Queued(TheSearch(), log)[k]
      requires j < |g[origin]| && edge == g[origin][j]
      requires pending.Contents() == Queued(TheSearch(), log)[k + 1..]
      modifies this`log, this`stopRequested, this`abandonRequested, this`markReferentAsVisited, this`visited, pending
      ensures traversalBegun && pending.Valid()
      ensures IsRun(TheSearch(), log) && visited == Table(TheSearch(), log)
      ensures done <==> !GoesOn(TheSearch(), log)
      ensures log != [] && (done <==> !Decided(TheSearch(), log).ok || Decided(TheSearch(), log).stop)
      ensures done ==> ok == Decided(TheSearch(), log).ok
      ensures !done ==>
                && Exploring(k, j + 1)
                && k < |Queued(TheSearch(), log)| && origin == Queued(TheSearch(), log)[k]
                && pending.Contents() == Queued(TheSearch(), log)[k + 1..]
      ensures |log| == |old(log)| + 1
    {
      ghost var s, log0 := TheSearch(), log;
      hide Table, Decided, Queued, IsRun, EdgesOf, AtCursor, WellFormed, Closed, Within, Enqueues;
      var first := edge.referent !in visited;
      var data := if first then blank else visited[edge.referent];
      NextAtCursor(s, log, k, j, Call(origin, edge, first));
      StepLaw(s, log, Call(origin, edge, first), data);

      markReferentAsVisited := true;
      var handled, data' := CallHandler(Call(origin, edge, first), data);
      if !first {
        visited := visited[edge.referent := data'];
      }
      if !handled {
        return true, false;
      }
      if first && markReferentAsVisited {
        visited := visited[edge.referent := data'];
      }
      if stopRequested {
        return true, true;
      }
      if abandonRequested {
        abandonRequested := false;
      } else if first {
        pending.Append(edge.referent);
        DropAppend(Queued(s, log0), edge.referent, k + 1);
      }
      return false, true;
    }

    /**
     Runs the traversal. The calls it makes are the search's run: all of it when nothing
     fails or stops, else up to the first call that fails (reported as `false`) or stops.
     It returns whenever the runs of the search are bounded.
     */
    method Traverse() returns (ok: bool)
      requires Ready() && Bounded(TheSearch())
      modifies this, pending
      ensures starts == old(starts) && marked == old(marked) && traversalBegun && pending.Valid()
      ensures IsRun(TheSearch(), log) && visited == Table(TheSearch(), log)
      ensures if log == [] || (Decided(TheSearch(), log).ok && !Decided(TheSearch(), log).stop) then
                ok && GoesOn(TheSearch(), log) && Complete(TheSearch(), log) && pending.Contents() == []
              else
                ok == Decided(TheSearch(), log).ok && !GoesOn(TheSearch(), log)
      ensures forall i :: 0 < i < |log| ==> Decided(TheSearch(), log[..i]).ok && !Decided(TheSearch(), log[..i]).stop
    {
      hide Table, Decided, Queued, IsRun, EdgesOf, AtCursor, Complete, AtMost, GoesOn, WellFormed, Closed, Within;
      Beginning(TheSearch());
      traversalBegun := true;
      ghost var s := TheSearch();
      ghost var most: nat :| AtMost(s, most);
      ghost var k := 0;
      while !pending.Empty()
        invariant TheSearch() == s && Exploring(k, 0) && k <= |Queued(s, log)|
        invariant pending.Contents() == Queued(s, log)[k..]
        decreases most - |log|, |pending.Contents()|
      {
        ghost var before, population := |log|, |pending.Contents()|;
        RunWithinBound(s, log, k, 0, most);
        OriginInGraph(s, log, k, 0);
        var origin := pending.Front();
        pending.PopFront();
        var range := g[origin];
        var cursor := 0;
        while cursor < |range|
          invariant 0 <= cursor <= |range|
          invariant TheSearch() == s && Exploring(k, cursor)
          invariant k < |Queued(s, log)| && Queued(s, log)[k] == origin
          invariant pending.Contents() == Queued(s, log)[k + 1..]
          invariant before <= |log|
          invariant before == |log| ==> |pending.Contents()| < population
        {
          var done, result := TraverseEdge(origin, range[cursor], k, cursor);
          if done {
            EarlierCallsGoOn(s, log);
            return result;
          }
          cursor := cursor + 1;
        }
        RunWithinBound(s, log, k, cursor, most);
        NextNode(s, log, k);
        k := k + 1;
      }
      AllReported(s, log, k);
      EarlierCallsGoOn(s, log);
      GoingOnIs(s, log);
      return true;
    }
  }

  /** In every run, each call but the last succeeded and did not ask to stop. */
  lemma {:induction false} EarlierCallsGoOn<D>(s: Search<D>, log: seq<Call>)
    requires IsRun(s, log)
    ensures forall i :: 0 < i < |log| ==> Decided(s, log[..i]).ok && !Decided(s, log[..i]).stop
    decreases |log|
  {
    if log != [] {
      hide Decided;
      EarlierCallsGoOn(s, Front(log));
      assert forall i :: 0 < i < |log| - 1 ==> log[..i] == Front(log)[..i];
      assert Front(log) == log[..|log| - 1];
    }
  }

  lemma GoingOnIs<D>(s: Search<D>, log: seq<Call>)
    ensures GoesOn(s, log) <==> log == [] || (Decided(s, log).ok && !Decided(s, log).stop)
  {
    hide Decided;
  }

  lemma DropAppend(q: seq<Node>, n: Node, k: nat)
    requires k <= |q|
    ensures (q + [n])[k..] == q[k..] + [n]
  {
  }

  /** The run is about to report edge `j` of the `k`-th queued node. */
  ghost predicate AtCursor<D>(s: Search<D>, log: seq<Call>, k: nat, j: nat) {
    var q := Queued(s, log);
    && IsRun(s, log)
    && Within(s.g, q)
    && k <= |q|
    && (k < |q| ==> j <= |s.g[q[k]]|)
    && (k == |q| ==> j == 0)
    && |log| == |EdgesOf(s.g, q[..k])| + j
  }

  lemma Beginning<D>(s: Search<D>)
    requires WellFormed(s)
    ensures AtCursor(s, [], 0, 0) && GoesOn(s, []) && Queued(s, []) == s.starts && Table(s, []).Keys <= s.g.Keys
  {
    assert Table(s, []).Keys == s.marked;
  }

  lemma RunWithinBound<D>(s: Search<D>, log: seq<Call>, k: nat, j: nat, n: nat)
    requires AtCursor(s, log, k, j) && AtMost(s, n)
    ensures |log| <= n
  {
  }

  lemma OriginInGraph<D>(s: Search<D>, log: seq<Call>, k: nat, j: nat)
    requires AtCursor(s, log, k, j) && k < |Queued(s, log)|
    ensures Queued(s, log)[k] in s.g
  {
  }

  lemma NextAtCursor<D>(s: Search<D>, log: seq<Call>, k: nat, j: nat, call: Call)
    requires WellFormed(s) && AtCursor(s, log, k, j) && GoesOn(s, log)
    requires k < |Queued(s, log)| && call.origin == Queued(s, log)[k] && j < |s.g[call.origin]|
    requires call.edge == s.g[call.origin][j] && call.first == (call.edge.referent !in Table(s, log))
    ensures IsRun(s, log + [call]) && call.edge.referent in s.g
    ensures GoesOn(s, log + [call]) ==> AtCursor(s, log + [call], k, j + 1)
    ensures Queued(s, log) <= Queued(s, log + [call])
  {
    hide Table, Decided, GoesOn, Enqueues, EdgesOf;
    var q, log' := Queued(s, log), log + [call];
    EdgeAtCursor(s.g, q, k, j);
    assert Front(log') == log && Last(log') == call;
    assert call.edge.referent in s.g;
    assert Queued(s, log')[..k] == q[..k];
  }

  /** What one more call does to the table and the queue. */
  lemma StepLaw<D>(s: Search<D>, log: seq<Call>, call: Call, data: D)
    requires data == if call.edge.referent in Table(s, log) then Table(s, log)[call.edge.referent] else s.blank
    ensures var log' := log + [call];
            var d := s.handler(log', data);
            && Decided(s, log') == d
            && (GoesOn(s, log') <==> d.ok && !d.stop)
            && Table(s, log') == (if call.edge.referent in Table(s, log) || (d.ok && d.mark)
                                  then Table(s, log)[call.edge.referent := d.data] else Table(s, log))
            && Queued(s, log') == Queued(s, log) + (if call.first && d.ok && !d.stop && !d.abandon then [call.edge.referent] else [])
  {
    assert Front(log + [call]) == log;
  }

  lemma NextNode<D>(s: Search<D>, log: seq<Call>, k: nat)
    requires k < |Queued(s, log)| && Queued(s, log)[k] in s.g && AtCursor(s, log, k, |s.g[Queued(s, log)[k]]|)
    ensures AtCursor(s, log, k + 1, 0) && k + 1 <= |Queued(s, log)|
  {
    var q := Queued(s, log);
    assert q[..k + 1] == q[..k] + [q[k]];
    EdgesOfAppend(s.g, q[..k], q[k]);
  }

  lemma AllReported<D>(s: Search<D>, log: seq<Call>, k: nat)
    requires AtCursor(s, log, k, 0) && k <= |Queued(s, log)| && Queued(s, log)[k..] == []
    ensures IsRun(s, log) && Complete(s, log)
  {
    assert Queued(s, log)[..k] == Queued(s, log);
  }
}
