/**
 The post-order depth-first traversal of `public/UbiNodePostOrder.h`.

 `PostOrder.Traverse` is the header's loop over an explicit stack of nodes and
 their edges still to follow. `DepthFirst` is the recursive search it implements.
 */
module PostOrders {
  import opened Graphs

  /** One call of the node visitor or of the edge visitor. */
  datatype Event = OnNode(node: Node) | OnEdge(origin: Node, edge: Edge)

  datatype OriginAndEdges = OriginAndEdges(origin: Node, edges: seq<Edge>)

  /** What a visitor answers may depend on every call made so far; the current call is the last. */
  type Visitor = seq<Event> -> bool

  datatype Outcome = Outcome(log: seq<Event>, seen: set<Node>)

  // ---------------------------------------------------------------------------
  // The recursive search
  // ---------------------------------------------------------------------------

  /** Follows the first `k` edges of `n`, from the last of them to the first, then reports `n`. */
  ghost function Visit(g: Graph, seen: set<Node>, n: Node, k: nat): (r: Outcome)
    requires Closed(g) && n in g && k <= |g[n]|
    ensures seen <= r.seen <= seen + g.Keys
    decreases g.Keys - seen, k
  {
    if k == 0 then
      Outcome([OnNode(n)], seen)
    else
      var e := g[n][k - 1];
      if e.referent in seen then
        var rest := Visit(g, seen, n, k - 1);
        Outcome([OnEdge(n, e)] + rest.log, rest.seen)
      else
        var sub := Visit(g, seen + {e.referent}, e.referent, |g[e.referent]|);
        var rest := Visit(g, sub.seen, n, k - 1);
        Outcome([OnEdge(n, e)] + sub.log + rest.log, rest.seen)
  }

  /** Visits the starts from the one added last to the one added first. */
  ghost function VisitStarts(g: Graph, seen: set<Node>, starts: seq<Node>): (r: Outcome)
    requires Closed(g) && forall s :: s in starts ==> s in g
    ensures seen <= r.seen <= seen + g.Keys
    decreases |starts|
  {
    if starts == [] then
      Outcome([], seen)
    else
      var s := starts[|starts| - 1];
      var first := Visit(g, seen, s, |g[s]|);
      var rest := VisitStarts(g, first.seen, starts[..|starts| - 1]);
      Outcome(first.log + rest.log, rest.seen)
  }

  ghost function Elements(s: seq<Node>): set<Node> {
    set n | n in s
  }

  /** The whole search: every start counts as seen before the first edge is followed. */
  ghost function DepthFirst(g: Graph, starts: seq<Node>): Outcome
    requires Closed(g) && forall s :: s in starts ==> s in g
  {
    VisitStarts(g, Elements(starts), starts)
  }

  // ---------------------------------------------------------------------------
  // The explicit stack
  // ---------------------------------------------------------------------------

  /** Each frame's remaining edges are a prefix of its origin's edges. */
  ghost predicate StackOf(g: Graph, stack: seq<OriginAndEdges>) {
    stack == [] ||
    var top := stack[|stack| - 1];
    top.origin in g && top.edges <= g[top.origin] && StackOf(g, stack[..|stack| - 1])
  }

  /** What the search still does for a stack, its last frame first. */
  ghost function Unwind(g: Graph, seen: set<Node>, stack: seq<OriginAndEdges>): (r: Outcome)
    requires Closed(g) && StackOf(g, stack)
    decreases |stack|
  {
    if stack == [] then
      Outcome([], seen)
    else
      var top := stack[|stack| - 1];
      var first := Visit(g, seen, top.origin, |top.edges|);
      var rest := Unwind(g, first.seen, stack[..|stack| - 1]);
      Outcome(first.log + rest.log, rest.seen)
  }

  ghost function StartFrames(g: Graph, starts: seq<Node>): (stack: seq<OriginAndEdges>)
    requires forall s :: s in starts ==> s in g
    ensures |stack| == |starts| && StackOf(g, stack) && Origins(stack) == starts
    ensures forall seen :: TakenEdgesSeen(g, seen, stack)
  {
    if starts == [] then
      []
    else
      var s := starts[|starts| - 1];
      assert s in starts;
      var below := StartFrames(g, starts[..|starts| - 1]);
      assert (below + [OriginAndEdges(s, g[s])])[..|below|] == below;
      below + [OriginAndEdges(s, g[s])]
  }

  lemma {:induction false} UnwindStarts(g: Graph, seen: set<Node>, starts: seq<Node>)
    requires Closed(g) && forall s :: s in starts ==> s in g
    ensures Unwind(g, seen, StartFrames(g, starts)) == VisitStarts(g, seen, starts)
    decreases |starts|
  {
    if starts != [] {
      var s := starts[|starts| - 1];
      var below := starts[..|starts| - 1];
      assert StartFrames(g, starts)[..|below|] == StartFrames(g, below);
      UnwindStarts(g, Visit(g, seen, s, |g[s]|).seen, below);
    }
  }

  /** The stack without the top frame's last edge. */
  function TakeEdge(stack: seq<OriginAndEdges>): seq<OriginAndEdges>
    requires stack != [] && stack[|stack| - 1].edges != []
  {
    var top := stack[|stack| - 1];
    stack[..|stack| - 1] + [OriginAndEdges(top.origin, top.edges[..|top.edges| - 1])]
  }

  /** Popping a finished frame reports its origin. */
  lemma UnwindPop(g: Graph, seen: set<Node>, stack: seq<OriginAndEdges>)
    requires Closed(g) && StackOf(g, stack) && stack != [] && stack[|stack| - 1].edges == []
    ensures var rest := Unwind(g, seen, stack[..|stack| - 1]);
            Unwind(g, seen, stack) == Outcome([OnNode(stack[|stack| - 1].origin)] + rest.log, rest.seen)
  {
  }

  /** Taking the last edge of the top frame, with or without descending into its referent. */
  lemma UnwindEdge(g: Graph, seen: set<Node>, stack: seq<OriginAndEdges>)
    requires Closed(g) && StackOf(g, stack) && stack != [] && stack[|stack| - 1].edges != []
    ensures var top := stack[|stack| - 1];
            var e := top.edges[|top.edges| - 1];
            var popped := TakeEdge(stack);
            var w := e.referent;
            && StackOf(g, popped) && w in g
            && (w in seen ==>
                  var rest := Unwind(g, seen, popped);
                  Unwind(g, seen, stack) == Outcome([OnEdge(top.origin, e)] + rest.log, rest.seen))
            && (w !in seen ==>
                  var pushed := popped + [OriginAndEdges(w, g[w])];
                  && StackOf(g, pushed)
                  && var rest := Unwind(g, seen + {w}, pushed);
                     Unwind(g, seen, stack) == Outcome([OnEdge(top.origin, e)] + rest.log, rest.seen))
  {
    var top := stack[|stack| - 1];
    var k := |top.edges|;
    var e := top.edges[k - 1];
    var below := stack[..|stack| - 1];
    var popped := TakeEdge(stack);
    var w := e.referent;
    assert e == g[top.origin][k - 1];
    assert popped[..|popped| - 1] == below;
    var now := Visit(g, seen, top.origin, k);
    if w in seen {
      var rest := Visit(g, seen, top.origin, k - 1);
      var more := Unwind(g, rest.seen, below);
      assert [OnEdge(top.origin, e)] + rest.log + more.log == [OnEdge(top.origin, e)] + (rest.log + more.log);
    } else {
      var pushed := popped + [OriginAndEdges(w, g[w])];
      assert pushed[..|pushed| - 1] == popped;
      var sub := Visit(g, seen + {w}, w, |g[w]|);
      var rest := Visit(g, sub.seen, top.origin, k - 1);
      var more := Unwind(g, rest.seen, below);
      assert [OnEdge(top.origin, e)] + sub.log + rest.log + more.log
          == [OnEdge(top.origin, e)] + (sub.log + (rest.log + more.log));
    }
  }

  /** The nodes on a stack, bottom first. */
  ghost function Origins(stack: seq<OriginAndEdges>): (r: seq<Node>)
    ensures |r| == |stack|
  {
    seq(|stack|, i requires 0 <= i < |stack| => stack[i].origin)
  }

  /**
   The starts not yet begun lie at the bottom; above them the stack is a path of the
   graph that begins at a start.
   */
  ghost predicate StartsThenPath(g: Graph, starts: seq<Node>, path: seq<Node>) {
    path == [] ||
    exists j :: 0 <= j < |starts| && j < |path| && path[..j + 1] == starts[..j + 1] && IsPath(g, path[j..])
  }

  /**
   The promise about one visitor call, given the calls before it and the stack at that
   time: the stack is some starts and then a path ending at the call's origin, and when
   a node is reported each of its out-neighbours was reported before or is on the stack.
   */
  ghost predicate CallInContext(g: Graph, starts: seq<Node>, before: seq<Event>, call: Event, stack: seq<Node>) {
    && stack != []
    && StartsThenPath(g, starts, stack)
    && match call
       case OnEdge(origin, edge) => origin == stack[|stack| - 1] && origin in g && edge in g[origin]
       case OnNode(u) =>
         && u == stack[|stack| - 1]
         && forall v :: Linked(g, u, v) ==> OnNode(v) in before || v in stack
  }

  ghost predicate AllInContext(g: Graph, starts: seq<Node>, log: seq<Event>, contexts: seq<seq<Node>>) {
    |contexts| == |log| && forall i :: 0 <= i < |log| ==> CallInContext(g, starts, log[..i], log[i], contexts[i])
  }

  lemma ContextsGrow(g: Graph, starts: seq<Node>, log: seq<Event>, contexts: seq<seq<Node>>, call: Event, stack: seq<Node>)
    requires AllInContext(g, starts, log, contexts) && CallInContext(g, starts, log, call, stack)
    ensures AllInContext(g, starts, log + [call], contexts + [stack])
  {
    forall i | 0 <= i <= |log|
      ensures CallInContext(g, starts, (log + [call])[..i], (log + [call])[i], (contexts + [stack])[i])
    {
      assert (log + [call])[..i] == log[..i];
    }
  }

  /** The visitors accepted the first `n` calls. */
  ghost predicate AcceptedUpTo(visitor: Visitor, log: seq<Event>, n: int)
    requires n <= |log|
  {
    forall i :: 0 < i <= n ==> visitor(log[..i])
  }

  lemma AcceptedMeans(visitor: Visitor, log: seq<Event>, n: int)
    requires n <= |log| && AcceptedUpTo(visitor, log, n)
    ensures forall i :: 0 < i <= n ==> visitor(log[..i])
  {
  }

  lemma AcceptedNone(visitor: Visitor)
    ensures AcceptedUpTo(visitor, [], 0)
  {
  }

  lemma AcceptedGrows(visitor: Visitor, log: seq<Event>, call: Event)
    requires AcceptedUpTo(visitor, log, |log|)
    ensures AcceptedUpTo(visitor, log + [call], |log|)
    ensures visitor(log + [call]) ==> AcceptedUpTo(visitor, log + [call], |log| + 1)
  {
    assert forall i :: 0 < i <= |log| ==> (log + [call])[..i] == log[..i];
    assert (log + [call])[..|log| + 1] == log + [call];
  }

  /** Every seen node is on the stack or reported, and every edge already taken led to a seen node. */
  ghost predicate StackInvariant(g: Graph, starts: seq<Node>, seen: set<Node>, stack: seq<OriginAndEdges>, log: seq<Event>) {
    && StackOf(g, stack)
    && StartsThenPath(g, starts, Origins(stack))
    && (forall n :: n in seen ==> OnNode(n) in log || n in Origins(stack))
    && TakenEdgesSeen(g, seen, stack)
  }

  /** In every frame, the edges no longer there led to seen nodes. */
  ghost predicate TakenEdgesSeen(g: Graph, seen: set<Node>, stack: seq<OriginAndEdges>)
    requires StackOf(g, stack)
  {
    stack == [] ||
    var top := stack[|stack| - 1];
    && (forall k :: |top.edges| <= k < |g[top.origin]| ==> g[top.origin][k].referent in seen)
    && TakenEdgesSeen(g, seen, stack[..|stack| - 1])
  }

  lemma {:induction false} SeenGrows(g: Graph, seen: set<Node>, seen': set<Node>, stack: seq<OriginAndEdges>)
    requires StackOf(g, stack) && TakenEdgesSeen(g, seen, stack) && seen <= seen'
    ensures TakenEdgesSeen(g, seen', stack)
    decreases |stack|
  {
    if stack != [] {
      SeenGrows(g, seen, seen', stack[..|stack| - 1]);
    }
  }

  class PostOrder {
    const g: Graph
    var seen: set<Node>
    var stack: seq<OriginAndEdges>
    var traversed: bool

    // The calls made to the visitors so far.
    var log: seq<Event>

    // The starts in the order added, and the stack at the time of each call.
    ghost var starts: seq<Node>
    ghost var contexts: seq<seq<Node>>

    /** The traversal has been set up but not run. */
    ghost predicate Ready()
      reads this
    {
      && Closed(g)
      && (forall s :: s in starts ==> s in g)
      && seen == Elements(starts)
      && stack == StartFrames(g, starts)
      && !traversed && log == [] && contexts == []
    }

    constructor (g: Graph)
      requires Closed(g)
      ensures Ready() && starts == [] && this.g == g
    {
      this.g := g;
      seen, stack, traversed := {}, [], false;
      starts, log, contexts := [], [], [];
    }

    /** Copies a range of edges into a vector, front to back. */
    static method FillEdgesFromRange(range: seq<Edge>) returns (edges: seq<Edge>)
      ensures edges == range
    {
      edges := [];
      var cursor := 0;
      while cursor < |range|
        invariant 0 <= cursor <= |range| && edges == range[..cursor]
      {
        edges := edges + [range[cursor]];
        cursor := cursor + 1;
      }
    }

    method PushForTraversing(node: Node)
      requires node in g
      modifies this`stack
      ensures stack == old(stack) + [OriginAndEdges(node, g[node])]
    {
      var edges := FillEdgesFromRange(g[node]);
      stack := stack + [OriginAndEdges(node, edges)];
    }

    /** Adds a start, whether or not it was added before. */
    method AddStart(node: Node)
      requires Ready() && node in g
      modifies this
      ensures Ready() && starts == old(starts) + [node]
    {
      starts := starts + [node];
      seen := seen + {node};
      PushForTraversing(node);
    }

    /**
     Runs the traversal. It succeeds exactly when the visitors accept every call of the
     recursive search; otherwise it stops at the first call they refuse.
     */
    method Traverse(visitor: Visitor) returns (ok: bool)
      requires Ready()
      modifies this
      ensures starts == old(starts) && traversed
      ensures var full := DepthFirst(g, starts);
              if ok then
                && log == full.log && seen == full.seen && stack == []
                && forall i :: 0 < i <= |log| ==> visitor(log[..i])
              else
                && log != [] && log <= full.log && !visitor(log)
                && forall i :: 0 < i < |log| ==> visitor(log[..i])
      ensures AllInContext(g, starts, log, contexts)
    {
      hide Progress, AllInContext, AcceptedUpTo, DepthFirst, Closed, Unwind, Visit, VisitStarts, Origins, StartFrames, StackOf, Elements;
      traversed := true;
      ghost var full := DepthFirst(g, starts);
      ProgressInitially(g, starts);
      AcceptedNone(visitor);
      while stack != []
        invariant starts == old(starts) && traversed
        invariant Progress(g, starts, seen, stack, log, contexts, full)
        invariant AcceptedUpTo(visitor, log, |log|)
        decreases g.Keys - seen, |stack|, if stack == [] then 0 else |stack[|stack| - 1].edges|
      {
        var top := stack[|stack| - 1];
        var origin, edges := top.origin, top.edges;
        ghost var stack0, log0, contexts0 := stack, log, contexts;
        contexts := contexts + [Origins(stack)];

        if edges == [] {
          log := log + [OnNode(origin)];
          CallStep(g, starts, seen, stack0, log0, contexts0, full, OnNode(origin));
          AcceptedGrows(visitor, log0, OnNode(origin));
          if !visitor(log) {
            AcceptedMeans(visitor, log, |log| - 1);
            return false;
          }
          stack := stack[..|stack| - 1];
          NodeStep(g, starts, seen, stack0, log0, contexts0, full, stack, log, contexts);
          continue;
        }

        var edge := edges[|edges| - 1];
        stack := TakeEdge(stack);
        log := log + [OnEdge(origin, edge)];
        CallStep(g, starts, seen, stack0, log0, contexts0, full, OnEdge(origin, edge));
        AcceptedGrows(visitor, log0, OnEdge(origin, edge));
        if !visitor(log) {
          AcceptedMeans(visitor, log, |log| - 1);
          return false;
        }
        EdgeStep(g, starts, seen, stack0, log0, contexts0, full, edge, stack, log, contexts);
        if edge.referent in seen {
          continue;
        }
        seen := seen + {edge.referent};
        PushForTraversing(edge.referent);
      }
      ProgressFinally(g, starts, seen, log, contexts, full);
      AcceptedMeans(visitor, log, |log|);
      return true;
    }
  }

  /** What is reported so far and what the stack still holds make up the whole search. */
  ghost predicate Progress(g: Graph, starts: seq<Node>, seen: set<Node>, stack: seq<OriginAndEdges>, log: seq<Event>,
                           contexts: seq<seq<Node>>, full: Outcome)
  {
    && Closed(g)
    && StackInvariant(g, starts, seen, stack, log)
    && AllInContext(g, starts, log, contexts)
    && var rest := Unwind(g, seen, stack);
       log + rest.log == full.log && rest.seen == full.seen
  }

  lemma ProgressInitially(g: Graph, starts: seq<Node>)
    requires Closed(g) && forall s :: s in starts ==> s in g
    ensures Progress(g, starts, Elements(starts), StartFrames(g, starts), [], [], DepthFirst(g, starts))
  {
    UnwindStarts(g, Elements(starts), starts);
    StackInvariantInitially(g, starts);
    assert [] + DepthFirst(g, starts).log == DepthFirst(g, starts).log;
  }

  lemma ProgressFinally(g: Graph, starts: seq<Node>, seen: set<Node>, log: seq<Event>, contexts: seq<seq<Node>>,
                        full: Outcome)
    requires Progress(g, starts, seen, [], log, contexts, full)
    ensures log == full.log && seen == full.seen && AllInContext(g, starts, log, contexts)
  {
    assert log + [] == log;
  }

  /** The call the loop is about to make. */
  ghost function NextCall(stack: seq<OriginAndEdges>): Event
    requires stack != []
  {
    var top := stack[|stack| - 1];
    if top.edges == [] then OnNode(top.origin) else OnEdge(top.origin, top.edges[|top.edges| - 1])
  }

  lemma CallStep(g: Graph, starts: seq<Node>, seen: set<Node>, stack: seq<OriginAndEdges>, log: seq<Event>,
                 contexts: seq<seq<Node>>, full: Outcome, call: Event)
    requires Progress(g, starts, seen, stack, log, contexts, full) && stack != [] && call == NextCall(stack)
    ensures log + [call] <= full.log
    ensures AllInContext(g, starts, log + [call], contexts + [Origins(stack)])
  {
    if stack[|stack| - 1].edges == [] {
      UnwindPop(g, seen, stack);
      NodeCallInContext(g, starts, seen, stack, log);
    } else {
      UnwindEdge(g, seen, stack);
      EdgeCallInContext(g, starts, seen, stack, log);
    }
    assert Unwind(g, seen, stack).log[0] == call;
    assert (log + [call])[..] == (log + Unwind(g, seen, stack).log)[..|log| + 1];
    ContextsGrow(g, starts, log, contexts, call, Origins(stack));
  }

  lemma NodeStep(g: Graph, starts: seq<Node>, seen: set<Node>, stack: seq<OriginAndEdges>, log: seq<Event>,
                 contexts: seq<seq<Node>>, full: Outcome,
                 stack': seq<OriginAndEdges>, log': seq<Event>, contexts': seq<seq<Node>>)
    requires Progress(g, starts, seen, stack, log, contexts, full)
    requires stack != [] && stack[|stack| - 1].edges == []
    requires stack' == stack[..|stack| - 1] && log' == log + [NextCall(stack)] && contexts' == contexts + [Origins(stack)]
    ensures Progress(g, starts, seen, stack', log', contexts', full)
  {
    CallStep(g, starts, seen, stack, log, contexts, full, NextCall(stack));
    UnwindPop(g, seen, stack);
    PopKeepsInvariant(g, starts, seen, stack, log);
    LogGrows(log, NextCall(stack), Unwind(g, seen, stack').log, full.log);
  }

  lemma EdgeStep(g: Graph, starts: seq<Node>, seen: set<Node>, stack: seq<OriginAndEdges>, log: seq<Event>,
                 contexts: seq<seq<Node>>, full: Outcome,
                 edge: Edge, popped: seq<OriginAndEdges>, log': seq<Event>, contexts': seq<seq<Node>>)
    requires Progress(g, starts, seen, stack, log, contexts, full)
    requires stack != [] && stack[|stack| - 1].edges != []
    requires NextCall(stack) == OnEdge(stack[|stack| - 1].origin, edge)
    requires popped == TakeEdge(stack) && log' == log + [NextCall(stack)] && contexts' == contexts + [Origins(stack)]
    ensures edge.referent in g
    ensures edge.referent in seen ==> Progress(g, starts, seen, popped, log', contexts', full)
    ensures edge.referent !in seen ==>
              Progress(g, starts, seen + {edge.referent}, popped + [OriginAndEdges(edge.referent, g[edge.referent])],
                       log', contexts', full)
  {
    CallStep(g, starts, seen, stack, log, contexts, full, NextCall(stack));
    UnwindEdge(g, seen, stack);
    EdgeKeepsInvariant(g, starts, seen, stack, log);
    var next := if edge.referent in seen then Unwind(g, seen, popped)
      else Unwind(g, seen + {edge.referent}, popped + [OriginAndEdges(edge.referent, g[edge.referent])]);
    LogGrows(log, NextCall(stack), next.log, full.log);
  }

  lemma LogGrows(log: seq<Event>, call: Event, rest: seq<Event>, full: seq<Event>)
    requires log + ([call] + rest) == full
    ensures (log + [call]) + rest == full && log + [call] <= full
  {
  }

  lemma StackInvariantInitially(g: Graph, starts: seq<Node>)
    requires forall s :: s in starts ==> s in g
    ensures StackInvariant(g, starts, Elements(starts), StartFrames(g, starts), [])
  {
    var stack := StartFrames(g, starts);
    if starts != [] {
      var j := |starts| - 1;
      assert starts[..j + 1] == starts && IsPath(g, starts[j..]);
    }
  }

  lemma NodeCallInContext(g: Graph, starts: seq<Node>, seen: set<Node>, stack: seq<OriginAndEdges>, log: seq<Event>)
    requires StackInvariant(g, starts, seen, stack, log) && stack != [] && stack[|stack| - 1].edges == []
    ensures CallInContext(g, starts, log, OnNode(stack[|stack| - 1].origin), Origins(stack))
  {
  }

  lemma EdgeCallInContext(g: Graph, starts: seq<Node>, seen: set<Node>, stack: seq<OriginAndEdges>, log: seq<Event>)
    requires StackInvariant(g, starts, seen, stack, log) && stack != [] && stack[|stack| - 1].edges != []
    ensures var top := stack[|stack| - 1];
            CallInContext(g, starts, log, OnEdge(top.origin, top.edges[|top.edges| - 1]), Origins(stack))
  {
  }

  lemma PopKeepsInvariant(g: Graph, starts: seq<Node>, seen: set<Node>, stack: seq<OriginAndEdges>, log: seq<Event>)
    requires StackInvariant(g, starts, seen, stack, log) && stack != [] && stack[|stack| - 1].edges == []
    ensures StackInvariant(g, starts, seen, stack[..|stack| - 1], log + [OnNode(stack[|stack| - 1].origin)])
  {
    var below := stack[..|stack| - 1];
    PathPop(g, starts, Origins(stack));
    assert Origins(below) == Origins(stack)[..|stack| - 1];
    assert Origins(stack) == Origins(below) + [stack[|stack| - 1].origin];
  }

  lemma PathPop(g: Graph, starts: seq<Node>, path: seq<Node>)
    requires StartsThenPath(g, starts, path) && path != []
    ensures StartsThenPath(g, starts, path[..|path| - 1])
  {
    var p := path[..|path| - 1];
    var j :| 0 <= j < |starts| && j < |path| && path[..j + 1] == starts[..j + 1] && IsPath(g, path[j..]);
    if j < |p| {
      assert p[..j + 1] == path[..j + 1];
      assert p[j..] == path[j..][..|p| - j];
    } else if p != [] {
      var i := |p| - 1;
      assert p[..i + 1] == path[..j + 1][..i + 1] == starts[..i + 1];
      assert IsPath(g, p[i..]);
    }
  }

  lemma PathPush(g: Graph, starts: seq<Node>, path: seq<Node>, w: Node)
    requires StartsThenPath(g, starts, path) && path != [] && Linked(g, path[|path| - 1], w)
    ensures StartsThenPath(g, starts, path + [w])
  {
    var j :| 0 <= j < |starts| && j < |path| && path[..j + 1] == starts[..j + 1] && IsPath(g, path[j..]);
    assert (path + [w])[..j + 1] == path[..j + 1];
    assert (path + [w])[j..] == path[j..] + [w];
    assert IsPath(g, path[j..] + [w]);
  }

  lemma TakeEdgeFrames(g: Graph, seen: set<Node>, stack: seq<OriginAndEdges>)
    requires StackOf(g, stack) && TakenEdgesSeen(g, seen, stack)
    requires stack != [] && stack[|stack| - 1].edges != []
    ensures var top := stack[|stack| - 1];
            var w := top.edges[|top.edges| - 1].referent;
            && Linked(g, top.origin, w)
            && Origins(TakeEdge(stack)) == Origins(stack)
            && StackOf(g, TakeEdge(stack))
            && TakenEdgesSeen(g, seen + {w}, TakeEdge(stack))
  {
    var top := stack[|stack| - 1];
    var k := |top.edges| - 1;
    assert top.edges[k] == g[top.origin][k];
    assert TakeEdge(stack)[..|stack| - 1] == stack[..|stack| - 1];
    SeenGrows(g, seen, seen + {top.edges[k].referent}, stack[..|stack| - 1]);
  }

  lemma PushFrames(g: Graph, seen: set<Node>, stack: seq<OriginAndEdges>, w: Node)
    requires StackOf(g, stack) && TakenEdgesSeen(g, seen, stack) && w in g
    ensures var pushed := stack + [OriginAndEdges(w, g[w])];
            StackOf(g, pushed) && TakenEdgesSeen(g, seen, pushed) && Origins(pushed) == Origins(stack) + [w]
  {
    assert (stack + [OriginAndEdges(w, g[w])])[..|stack|] == stack;
  }

  lemma EdgeKeepsInvariant(g: Graph, starts: seq<Node>, seen: set<Node>, stack: seq<OriginAndEdges>, log: seq<Event>)
    requires Closed(g)
    requires StackInvariant(g, starts, seen, stack, log) && stack != [] && stack[|stack| - 1].edges != []
    ensures var e := stack[|stack| - 1].edges[|stack[|stack| - 1].edges| - 1];
            var w := e.referent;
            var call := OnEdge(stack[|stack| - 1].origin, e);
            && w in g
            && (w in seen ==> StackInvariant(g, starts, seen, TakeEdge(stack), log + [call]))
            && (w !in seen ==>
                  StackInvariant(g, starts, seen + {w}, TakeEdge(stack) + [OriginAndEdges(w, g[w])], log + [call]))
  {
    hide Origins, Linked, TakenEdgesSeen;
    var top := stack[|stack| - 1];
    var e := top.edges[|top.edges| - 1];
    var w := e.referent;
    var path := Origins(stack);
    TakeEdgeFrames(g, seen, stack);
    TopOrigin(stack);
    LinkedClosed(g, top.origin, w);
    if w in seen {
      assert seen + {w} == seen;
    } else {
      PushFrames(g, seen + {w}, TakeEdge(stack), w);
      PathPush(g, starts, path, w);
      assert w in path + [w];
    }
  }

  lemma TopOrigin(stack: seq<OriginAndEdges>)
    requires stack != []
    ensures Origins(stack) != [] && Origins(stack)[|stack| - 1] == stack[|stack| - 1].origin
  {
  }

  lemma LinkedClosed(g: Graph, a: Node, b: Node)
    requires Closed(g) && Linked(g, a, b)
    ensures b in g
  {
  }
}
