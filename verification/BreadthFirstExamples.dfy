/**
 Small graphs on which the promises of `public/UbiNodeBreadthFirst.h` fail. A start added
 without being marked is explored a second time: its edge is then reported twice, and the
 second report is out of level order. A node left unmarked is explored a second time too, and
 the arrival recorded for it then leads away from the start.
 */
module BreadthFirstExamples {
  import opened Graphs
  import opened BreadthFirsts
  import opened BreadthFirstLaws
  import opened BreadthFirstLevels
  import opened BreadthFirstPaths

  /** One node with an edge to itself. */
  ghost const LOOP: Graph := map[0 := [Edge("self", 0)]]

  /** Two nodes with edges to each other. */
  ghost const PAIR: Graph := map[0 := [Edge("there", 1)], 1 := [Edge("back", 0)]]

  /** A handler that marks every node and abandons none. */
  ghost function Marking(log: seq<Call>, data: int): Decision<int> {
    Decision(true, false, false, true, data)
  }

  ghost predicate SingleEdges(g: Graph) {
    Closed(g) && forall n :: n in g ==> |g[n]| == 1
  }

  lemma {:induction false} SingleEdgesOf(g: Graph, q: seq<Node>)
    requires SingleEdges(g) && Within(g, q)
    ensures |EdgesOf(g, q)| == |q|
    ensures forall i :: 0 <= i < |q| ==> q[i] in g && |g[q[i]]| == 1 && EdgesOf(g, q)[i] == (q[i], g[q[i]][0])
    decreases |q|
  {
    if q != [] {
      SingleEdgesOf(g, q[..|q| - 1]);
    }
  }

  /** A run in a graph of single edges has led to the given queue and table. */
  ghost predicate Stands<D>(s: Search<D>, log: seq<Call>, q: seq<Node>, table: map<Node, D>) {
    && WellFormed(s) && SingleEdges(s.g)
    && IsRun(s, log) && GoesOn(s, log) && Queued(s, log) == q && Table(s, log) == table && Within(s.g, q)
  }

  lemma Start<D>(s: Search<D>)
    requires WellFormed(s) && SingleEdges(s.g)
    ensures Stands(s, [], s.starts, map n | n in s.marked :: s.blank)
  {
  }

  /** One more call, which abandons nothing. */
  lemma NextCall<D>(s: Search<D>, log: seq<Call>, q: seq<Node>, table: map<Node, D>, call: Call, d: Decision<D>)
    requires Stands(s, log, q, table) && |log| < |q| && call.origin == q[|log|]
    requires call.edge == s.g[q[|log|]][0] && (call.first <==> call.edge.referent !in table)
    requires var w := call.edge.referent; d == s.handler(log + [call], if w in table then table[w] else s.blank)
    requires d.GoesOn() && !d.abandon
    ensures var w := call.edge.referent;
            Stands(s, log + [call], if call.first then q + [w] else q, if w in table || d.mark then table[w := d.data] else table)
  {
    hide IsRun, Table, Queued, EdgesOf, Decided;
    var w := call.edge.referent;
    SingleEdgesOf(s.g, q);
    assert IsNext(s, log, call);
    RunExtends(s, log, call);
    StepLaw(s, log, call, if w in Table(s, log) then Table(s, log)[w] else s.blank);
    assert q + [] == q;
  }

  lemma AllCalled<D>(s: Search<D>, log: seq<Call>, q: seq<Node>, table: map<Node, D>)
    requires Stands(s, log, q, table) && |log| == |q|
    ensures Complete(s, log)
  {
    SingleEdgesOf(s.g, q);
  }

  /** A start added without being marked is queued again when it is entered: its edge is reported twice. */
  lemma UnmarkedStartReportsTwice()
    ensures var s := Search(LOOP, [0], {}, 0, Marking);
            var e := Edge("self", 0);
            var log := [Call(0, e, true), Call(0, e, false)];
            IsRun(s, log) && GoesOn(s, log) && Complete(s, log) && Reports(log, 0, e) == 2
  {
    var s := Search(LOOP, [0], {}, 0, Marking);
    var e := Edge("self", 0);
    var c1, c2 := Call(0, e, true), Call(0, e, false);
    hide IsRun, Table, Queued, Decided, GoesOn, Complete, EdgesOf;
    Start(s);
    var marked := Decision(true, false, false, true, 0);
    assert [] + [c1] == [c1] && [c1] + [c2] == [c1, c2] && [0] + [0] == [0, 0];
    NextCall(s, [], [0], map[], c1, marked);
    NextCall(s, [c1], [0, 0], map[0 := 0], c2, marked);
    AllCalled(s, [c1, c2], [0, 0], map[0 := 0]);
    assert Reported([c1, c2]) == [(0, e), (0, e)];
  }

  /** Its second turn comes after the call that entered it, from a node further away. */
  lemma UnmarkedStartOutOfOrder()
    ensures var s := Search(PAIR, [0], {}, 0, Marking);
            var there, back := Edge("there", 1), Edge("back", 0);
            var log := [Call(0, there, true), Call(1, back, true), Call(0, there, false)];
            && IsRun(s, log) && GoesOn(s, log) && Complete(s, log)
            && forall avoid :: !LevelOrdered(PAIR, [0], avoid, log)
  {
    var s := Search(PAIR, [0], {}, 0, Marking);
    var there, back := Edge("there", 1), Edge("back", 0);
    var c1, c2, c3 := Call(0, there, true), Call(1, back, true), Call(0, there, false);
    hide IsRun, Table, Queued, Decided, GoesOn, Complete, EdgesOf, NoFurther;
    Start(s);
    var marked := Decision(true, false, false, true, 0);
    assert [] + [c1] == [c1] && [c1] + [c2] == [c1, c2] && [c1, c2] + [c3] == [c1, c2, c3];
    assert [0] + [1] == [0, 1] && [0, 1] + [0] == [0, 1, 0];
    NextCall(s, [], [0], map[], c1, marked);
    NextCall(s, [c1], [0, 1], map[1 := 0], c2, marked);
    NextCall(s, [c1, c2], [0, 1, 0], map[1 := 0, 0 := 0], c3, marked);
    AllCalled(s, [c1, c2, c3], [0, 1, 0], map[1 := 0, 0 := 0]);
    var log := [c1, c2, c3];
    assert log[1].origin == 1 && log[2].origin == 0;
    forall avoid ensures !LevelOrdered(PAIR, [0], avoid, log) {
      FurtherThanStart(PAIR, [0], avoid, 1, 0);
    }
  }

  /** A node leading into a loop of two others. */
  ghost const TAIL: Graph := map[0 := [Edge("in", 1)], 1 := [Edge("there", 2)], 2 := [Edge("back", 1)]]

  /** A handler that records first arrivals and leaves its very first referent unmarked. */
  ghost function Forgetful(log: seq<Call>, data: Arrival): Decision<Arrival> {
    Decision(true, false, false, |log| != 1,
             if log != [] && Last(log).first then Reached(Last(log).origin, Last(log).edge) else data)
  }

  /**
   Although the start is marked: the node left unmarked is explored again behind a node
   further away, and walking back from it goes round the loop.
   */
  lemma UnmarkedNodeOutOfOrder()
    ensures var s := Search(TAIL, [0], {0}, Unset, Forgetful);
            var into, there, back := Edge("in", 1), Edge("there", 2), Edge("back", 1);
            var log := [Call(0, into, true), Call(1, there, true), Call(2, back, true), Call(1, there, false)];
            && IsRun(s, log) && GoesOn(s, log) && Complete(s, log)
            && Table(s, log) == map[0 := Unset, 2 := Reached(1, there), 1 := Reached(2, back)]
            && !LevelOrdered(TAIL, [0], {}, log)
  {
    var s := Search(TAIL, [0], {0}, Unset, Forgetful);
    var into, there, back := Edge("in", 1), Edge("there", 2), Edge("back", 1);
    var c1, c2, c3, c4 := Call(0, into, true), Call(1, there, true), Call(2, back, true), Call(1, there, false);
    hide IsRun, Table, Queued, Decided, GoesOn, Complete, EdgesOf, NoFurther;
    Start(s);
    var log := [c1, c2, c3, c4];
    var t2 := map[0 := Unset, 2 := Reached(1, there)];
    var t3 := t2[1 := Reached(2, back)];
    assert [] + [c1] == [c1] && [c1] + [c2] == [c1, c2] && [c1, c2] + [c3] == [c1, c2, c3] && [c1, c2, c3] + [c4] == log;
    assert [0] + [1] == [0, 1] && [0, 1] + [2] == [0, 1, 2] && [0, 1, 2] + [1] == [0, 1, 2, 1];
    assert (map n | n in s.marked :: s.blank) == map[0 := Unset];
    NextCall(s, [], [0], map[0 := Unset], c1, Decision(true, false, false, false, Reached(0, into)));
    NextCall(s, [c1], [0, 1], map[0 := Unset], c2, Decision(true, false, false, true, Reached(1, there)));
    NextCall(s, [c1, c2], [0, 1, 2], t2, c3, Decision(true, false, false, true, Reached(2, back)));
    NextCall(s, [c1, c2, c3], [0, 1, 2, 1], t3, c4, Decision(true, false, false, true, Reached(1, there)));
    AllCalled(s, log, [0, 1, 2, 1], t3[2 := Reached(1, there)]);
    TailDistances();
    assert log[2].origin == 2 && log[3].origin == 1;
  }

  /** In that graph the second node of the loop is further away than the first. */
  lemma TailDistances()
    ensures !NoFurther(TAIL, [0], {}, 2, 1)
  {
    ShortPath();
    forall c: nat | IsDistance(TAIL, [0], {}, 2, c) ensures c >= 2 {
      var q :| StartPath(TAIL, [0], {}, 2, q) && |q| == c + 1;
      LongPath(q);
    }
    hide IsPath, Linked, StartPath;
  }

  lemma ShortPath()
    ensures StartPath(TAIL, [0], {}, 1, [0, 1])
  {
    assert [0, 1][..1] == [0];
    assert TAIL[0][0].referent == 1 && Linked(TAIL, 0, 1);
  }

  lemma LongPath(q: seq<Node>)
    requires StartPath(TAIL, [0], {}, 2, q)
    ensures |q| >= 3
  {
    assert TAIL[0] == [Edge("in", 1)];
    assert !Linked(TAIL, 0, 2);
  }
}
