/**
 The passes of the dominator computation: each moves guesses up the tree only, so they end,
 and what a pass leaves unchanged are the immediate dominators.
 */
module DominatorFixpoint {
  import opened Dominators

  // ---------------------------------------------------------------------------
  // The invariant of the passes
  // ---------------------------------------------------------------------------

  /** `c` is in the chain of every predecessor of `i` that has one. */
  ghost predicate Common(preds: Predecessors, d: seq<nat>, i: nat, c: nat)
    requires Numbered(preds) && |d| == |preds| && TreeOf(d) && i < |d| - 1
  {
    && Known(d, Parent(preds, i)) && c in Chain(d, Parent(preds, i))
    && forall p :: p in preds[i] && Known(d, p) ==> c in Chain(d, p)
  }

  ghost predicate Nearest(preds: Predecessors, d: seq<nat>, i: nat, n: nat)
    requires Numbered(preds) && |d| == |preds| && TreeOf(d) && i < |d| - 1
  {
    Common(preds, d, i, n) && forall c: nat :: Common(preds, d, i, c) ==> c >= n
  }

  /** No guess is above the point where the predecessors' chains now meet. */
  ghost predicate NotTooHigh(preds: Predecessors, d: seq<nat>)
    requires Numbered(preds) && |d| == |preds| && TreeOf(d)
  {
    forall i: nat, c: nat :: i < |d| - 1 && Known(d, i) && Common(preds, d, i, c) ==> c >= d[i]
  }

  /** Every dominator of a node is in its chain. */
  ghost predicate Sound(preds: Predecessors, d: seq<nat>)
    requires TreeOf(d)
  {
    forall x, a: nat :: Known(d, x) && Dominates(preds, a, x) ==> a in Chain(d, x)
  }

  /** The nodes from `from` on have been visited in this pass: their guesses are in their parents' chains. */
  ghost predicate Visited(preds: Predecessors, d: seq<nat>, from: nat)
    requires Numbered(preds) && |d| == |preds| && TreeOf(d)
  {
    forall x :: from <= x < |d| - 1 ==> VisitedAt(preds, d, x)
  }

  ghost predicate VisitedAt(preds: Predecessors, d: seq<nat>, x: nat)
    requires Numbered(preds) && |d| == |preds| && TreeOf(d) && x < |d| - 1
  {
    Known(d, x) && Known(d, Parent(preds, x)) && d[x] in Chain(d, Parent(preds, x))
  }

  /** The nodes with guesses are those from some index on. */
  ghost predicate KnownUpward(d: seq<nat>) {
    forall i, j :: 0 <= i <= j < |d| && Known(d, i) ==> Known(d, j)
  }

  ghost predicate Guesses(preds: Predecessors, d: seq<nat>, from: nat) {
    && Numbered(preds) && |d| == |preds| && TreeOf(d) && from <= |d| - 1
    && KnownUpward(d)
    && (forall x :: 0 <= x < |d| - 1 && Known(d, x) ==> d[x] in Ancestors(preds, x))
    && NotTooHigh(preds, d) && Sound(preds, d) && Visited(preds, d, from)
  }

  // ---------------------------------------------------------------------------
  // One update
  // ---------------------------------------------------------------------------

  /** Among visited nodes, what is in a chain above an ancestor is in the ancestor's chain. */
  lemma {:induction false} Nested(preds: Predecessors, d: seq<nat>, from: nat, x: nat, o: nat, c: nat)
    requires Numbered(preds) && |d| == |preds| && TreeOf(d) && Visited(preds, d, from)
    requires from <= x < |d| && Known(d, x) && o in Ancestors(preds, x) && c in Chain(d, x) && c >= o
    ensures Known(d, o) && c in Chain(d, o)
    decreases |d| - x
  {
    if x != o {
      var p := Parent(preds, x);
      assert VisitedAt(preds, d, x);
      AncestorsAbove(preds, p, o);
      ChainAbove(d, p, d[x]);
      Nested(preds, d, from, p, o, c);
    }
  }

  /** The new guess is in the chain of the old one. */
  lemma NewGuessIsHigher(preds: Predecessors, d: seq<nat>, i: nat, n: nat)
    requires i < |d| - 1 && Guesses(preds, d, i + 1) && Nearest(preds, d, i, n) && Known(d, i)
    ensures d[i] <= n && Known(d, d[i]) && n in Chain(d, d[i])
  {
    AncestorsAbove(preds, i, d[i]);
    Nested(preds, d, i + 1, Parent(preds, i), d[i], n);
  }

  /** A new guess changes no chain above it. */
  lemma {:induction false} ChainUnchanged(d: seq<nat>, i: nat, n: nat, x: nat)
    requires TreeOf(d) && i < |d| - 1 && i < n && Known(d, n) && Known(d, x) && x > i
    ensures TreeOf(d[i := n]) && Known(d[i := n], x) && Chain(d[i := n], x) == Chain(d, x)
    decreases |d| - x
  {
    if x < |d| - 1 {
      ChainUnchanged(d, i, n, d[x]);
    }
  }

  /** A new guess for `i` replaces the part above `i` of every chain through `i`. */
  lemma {:induction false} ChainAfter(d: seq<nat>, i: nat, n: nat, x: nat)
    requires TreeOf(d) && i < |d| - 1 && i < n && Known(d, n) && Known(d, x)
    ensures var d' := d[i := n];
            && TreeOf(d') && Known(d', x) && Chain(d', i) == {i} + Chain(d, n)
            && (i !in Chain(d, x) ==> Chain(d', x) == Chain(d, x))
            && (i in Chain(d, x) ==>
                  forall c: nat :: c in Chain(d', x) <==> (c in Chain(d, x) && c <= i) || c in Chain(d, n))
    decreases |d| - x
  {
    ChainUnchanged(d, i, n, n);
    ChainAboveAll(d, x);
    ChainAboveAll(d, n);
    if x > i {
      ChainUnchanged(d, i, n, x);
    } else if x == i {
      ChainAboveAll(d, d[i]);
    } else {
      ChainAfter(d, i, n, d[x]);
    }
  }

  lemma ChainAboveAll(d: seq<nat>, x: nat)
    requires TreeOf(d) && Known(d, x)
    ensures forall c :: c in Chain(d, x) ==> c >= x && Known(d, c)
  {
    forall c | c in Chain(d, x) ensures c >= x && Known(d, c) {
      ChainAbove(d, x, c);
    }
  }

  /** Chains only shrink when a guess moves up its own chain or is new. */
  lemma ChainsShrink(preds: Predecessors, d: seq<nat>, i: nat, n: nat, x: nat)
    requires i < |d| - 1 && Guesses(preds, d, i + 1) && Nearest(preds, d, i, n) && Known(d, x)
    ensures i < n && Known(d, n) && TreeOf(d[i := n]) && Known(d[i := n], x) && Chain(d[i := n], x) <= Chain(d, x)
  {
    NearestIsAbove(preds, d, i, n);
    ChainAfter(d, i, n, x);
    if i in Chain(d, x) {
      ChainAbove(d, x, i);
      NewGuessIsHigher(preds, d, i, n);
      ChainAbove(d, d[i], n);
      ChainAbove(d, x, i);
      assert Chain(d, n) <= Chain(d, d[i]) <= Chain(d, i) <= Chain(d, x);
    }
  }

  lemma NearestIsAbove(preds: Predecessors, d: seq<nat>, i: nat, n: nat)
    requires i < |d| - 1 && Guesses(preds, d, i + 1) && Common(preds, d, i, n)
    ensures i < n && Known(d, n) && Chain(d, n) <= Chain(d, Parent(preds, i))
  {
    ChainAbove(d, Parent(preds, i), n);
  }

  /** The chains below a new guess still hold every dominator. */
  lemma UpdateSound(preds: Predecessors, d: seq<nat>, i: nat, n: nat, x: nat, a: nat)
    requires i < |d| - 1 && Guesses(preds, d, i + 1) && Nearest(preds, d, i, n)
    requires TreeOf(d[i := n]) && Known(d[i := n], x) && Dominates(preds, a, x)
    ensures a in Chain(d[i := n], x)
  {
    NearestIsAbove(preds, d, i, n);
    ChainUnchanged(d, i, n, n);
    if x == i {
      DominatorOfUpdated(preds, d, i, n, a);
    } else {
      ChainAfter(d, i, n, x);
      assert a in Chain(d, x);
      if i in Chain(d, x) && a > i {
        ChainIsAncestors(preds, d, i + 1, x, i);
        DominatesAncestor(preds, a, i, x);
        DominatorOfUpdated(preds, d, i, n, a);
      }
    }
  }

  lemma DominatorOfUpdated(preds: Predecessors, d: seq<nat>, i: nat, n: nat, a: nat)
    requires i < |d| - 1 && Guesses(preds, d, i + 1) && Nearest(preds, d, i, n) && Dominates(preds, a, i)
    ensures a == i || (Known(d, n) && a in Chain(d, n))
  {
    if a != i {
      forall p | p in preds[i] && Known(d, p) ensures a in Chain(d, p) {
        DominatesPredecessor(preds, a, p, i);
      }
      assert Common(preds, d, i, a);
      ChainFrom(d, Parent(preds, i), n, a);
    }
  }

  lemma {:induction false} ChainIsAncestors(preds: Predecessors, d: seq<nat>, from: nat, x: nat, c: nat)
    requires Guesses(preds, d, from) && Known(d, x) && c in Chain(d, x)
    ensures c in Ancestors(preds, x)
    decreases |d| - x
  {
    if c != x {
      ChainIsAncestors(preds, d, from, d[x], c);
      AncestorsAbove(preds, x, d[x]);
    }
  }

  /** Moving the guess for `i` to the nearest common node keeps the invariant and visits `i`. */
  lemma UpdateKeepsGuesses(preds: Predecessors, d: seq<nat>, i: nat, n: nat)
    requires i < |d| - 1 && Guesses(preds, d, i + 1) && Nearest(preds, d, i, n)
    ensures Guesses(preds, d[i := n], i) && (Known(d, i) ==> d[i] <= n) && i < n < |d| && Known(d[i := n], i)
    ensures Common(preds, d[i := n], i, n)
  {
    NearestIsAbove(preds, d, i, n);
    if Known(d, i) {
      NewGuessIsHigher(preds, d, i, n);
    }
    hide Visited, NotTooHigh, Sound, Common, Nearest, Chain, TreeOf, Ancestors, Numbered;
    UpdateShape(preds, d, i, n);
    UpdateNotTooHigh(preds, d, i, n);
    NearestStaysCommon(preds, d, i, n);
    UpdateAllSound(preds, d, i, n);
    UpdateVisits(preds, d, i, n);
  }

  /** The new guesses form a tree along the ancestors, and are still known from some node on. */
  lemma UpdateShape(preds: Predecessors, d: seq<nat>, i: nat, n: nat)
    requires i < |d| - 1 && Guesses(preds, d, i + 1) && Nearest(preds, d, i, n)
    ensures var d' := d[i := n];
            && TreeOf(d') && Numbered(preds) && |d'| == |preds| && i <= |d'| - 1
            && KnownUpward(d')
            && (forall x :: 0 <= x < |d'| - 1 && Known(d', x) ==> d'[x] in Ancestors(preds, x))
  {
    hide NotTooHigh, Sound, Chain, Ancestors, KnownUpward;
    NearestIsAbove(preds, d, i, n);
    UpdateClimbs(preds, d, i, n);
    NextKnown(preds, d, i);
    KnownAfter(d, i, n);
  }

  lemma NextKnown(preds: Predecessors, d: seq<nat>, i: nat)
    requires i < |d| - 1 && Guesses(preds, d, i + 1)
    ensures Known(d, i + 1)
  {
    assert i + 1 < |d| - 1 ==> VisitedAt(preds, d, i + 1);
  }

  lemma KnownAfter(d: seq<nat>, i: nat, n: nat)
    requires KnownUpward(d) && i + 1 < |d| && Known(d, i + 1) && n < UNDEFINED
    ensures KnownUpward(d[i := n])
  {
    var d' := d[i := n];
    forall x, y | 0 <= x <= y < |d'| && Known(d', x) ensures Known(d', y) {
      if y != i {
        assert Known(d, if x == i then i + 1 else x);
        assert Known(d, y);
      }
    }
  }

  lemma UpdateAllSound(preds: Predecessors, d: seq<nat>, i: nat, n: nat)
    requires i < |d| - 1 && Guesses(preds, d, i + 1) && Nearest(preds, d, i, n) && TreeOf(d[i := n])
    ensures Sound(preds, d[i := n])
  {
    hide Guesses, Nearest, Dominates, TreeOf, Chain;
    forall x: nat, a: nat | Known(d[i := n], x) && Dominates(preds, a, x) ensures a in Chain(d[i := n], x) {
      UpdateSound(preds, d, i, n, x, a);
    }
  }

  lemma UpdateClimbs(preds: Predecessors, d: seq<nat>, i: nat, n: nat)
    requires i < |d| - 1 && Guesses(preds, d, i + 1) && Nearest(preds, d, i, n)
    ensures n in Ancestors(preds, i)
  {
    ChainIsAncestors(preds, d, i + 1, Parent(preds, i), n);
  }

  lemma UpdateNotTooHigh(preds: Predecessors, d: seq<nat>, i: nat, n: nat)
    requires i < |d| - 1 && Guesses(preds, d, i + 1) && Nearest(preds, d, i, n) && TreeOf(d[i := n])
    ensures NotTooHigh(preds, d[i := n])
  {
    var d' := d[i := n];
    forall y: nat, c: nat | y < |d| - 1 && Known(d', y) && Common(preds, d', y, c) ensures c >= d'[y] {
      hide Chain, Common, Sound, Visited;
      if Known(d, y) || y == i {
        CommonBefore(preds, d, i, n, y, c);
      }
    }
  }

  /** What is common after an update was common before. */
  lemma CommonBefore(preds: Predecessors, d: seq<nat>, i: nat, n: nat, y: nat, c: nat)
    requires i < |d| - 1 && Guesses(preds, d, i + 1) && Nearest(preds, d, i, n) && TreeOf(d[i := n])
    requires y < |d| - 1 && (Known(d, y) || y == i) && Common(preds, d[i := n], y, c)
    ensures Common(preds, d, y, c)
  {
    hide Chain, NotTooHigh, Sound, Nearest;
    assert Known(d, Parent(preds, y));
    forall p | p in preds[y] && Known(d, p) ensures c in Chain(d, p) {
      ChainsShrink(preds, d, i, n, p);
    }
  }

  lemma NearestStaysCommon(preds: Predecessors, d: seq<nat>, i: nat, n: nat)
    requires i < |d| - 1 && Guesses(preds, d, i + 1) && Nearest(preds, d, i, n) && TreeOf(d[i := n])
    ensures Common(preds, d[i := n], i, n)
  {
    var d' := d[i := n];
    NearestIsAbove(preds, d, i, n);
    ChainAboveAll(d, n);
    ChainUnchanged(d, i, n, Parent(preds, i));
    forall p | p in preds[i] && Known(d', p) ensures n in Chain(d', p) {
      if p == i {
        ChainAfter(d, i, n, n);
      } else {
        ChainAfter(d, i, n, p);
      }
    }
  }

  lemma UpdateVisits(preds: Predecessors, d: seq<nat>, i: nat, n: nat)
    requires i < |d| - 1 && Guesses(preds, d, i + 1) && Nearest(preds, d, i, n) && TreeOf(d[i := n])
    ensures Visited(preds, d[i := n], i)
  {
    hide Guesses, Nearest, Chain, TreeOf, Parent;
    GuessesTree(preds, d, i + 1);
    var d' := d[i := n];
    forall x | i <= x < |d| - 1 ensures VisitedAt(preds, d', x) {
      UpdateVisitsAt(preds, d, i, n, x);
    }
  }

  lemma UpdateVisitsAt(preds: Predecessors, d: seq<nat>, i: nat, n: nat, x: nat)
    requires i < |d| - 1 && Guesses(preds, d, i + 1) && Nearest(preds, d, i, n) && TreeOf(d[i := n]) && i <= x < |d| - 1
    ensures VisitedAt(preds, d[i := n], x)
  {
    NearestIsAbove(preds, d, i, n);
    hide NotTooHigh, Sound, KnownUpward, Ancestors, Chain;
    assert x > i ==> VisitedAt(preds, d, x);
    ChainUnchanged(d, i, n, Parent(preds, x));
  }

  // ---------------------------------------------------------------------------
  // The loops
  // ---------------------------------------------------------------------------

  /** `n` is where the chains of the first `k` predecessors meet, those without one passed over. */
  ghost predicate MeetsFirst(d: seq<nat>, ps: seq<nat>, k: nat, first: nat, n: nat)
    requires TreeOf(d) && k <= |ps| && Known(d, first)
  {
    && Known(d, n) && n in Chain(d, first)
    && (forall j :: 0 <= j < k && Known(d, ps[j]) ==> n in Chain(d, ps[j]))
    && (forall c :: c in Chain(d, first) && CommonFirst(d, ps, k, c) ==> c in Chain(d, n))
  }

  ghost predicate CommonFirst(d: seq<nat>, ps: seq<nat>, k: nat, c: nat)
    requires TreeOf(d) && k <= |ps|
  {
    forall j :: 0 <= j < k && Known(d, ps[j]) ==> c in Chain(d, ps[j])
  }

  lemma MeetsNext(d: seq<nat>, ps: seq<nat>, k: nat, first: nat, n: nat, r: nat)
    requires TreeOf(d) && k < |ps| && Known(d, first) && MeetsFirst(d, ps, k, first, n)
    requires Known(d, ps[k]) && Meet(d, n, ps[k], r)
    ensures MeetsFirst(d, ps, k + 1, first, r)
  {
    ChainAbove(d, n, r);
    ChainAbove(d, first, n);
    forall j | 0 <= j < k + 1 && Known(d, ps[j]) ensures r in Chain(d, ps[j]) {
      if j < k {
        ChainAbove(d, ps[j], n);
      }
    }
    forall c | c in Chain(d, first) && CommonFirst(d, ps, k + 1, c) ensures c in Chain(d, r) {
      assert CommonFirst(d, ps, k, c);
      ChainFrom(d, n, r, c);
    }
  }

  lemma MeetsAll(preds: Predecessors, d: seq<nat>, i: nat, first: nat, n: nat)
    requires i < |d| - 1 && Guesses(preds, d, i + 1) && first in preds[i] && Known(d, first)
    requires MeetsFirst(d, preds[i], |preds[i]|, first, n)
    ensures Nearest(preds, d, i, n)
  {
    hide Chain, Visited, NotTooHigh, Sound, Ancestors, KnownUpward;
    ParentKnown(preds, d, i);
    forall p | p in preds[i] && Known(d, p) ensures n in Chain(d, p) {
      var j :| 0 <= j < |preds[i]| && preds[i][j] == p;
    }
    forall c: nat | Common(preds, d, i, c) ensures c >= n {
      assert CommonFirst(d, preds[i], |preds[i]|, c);
      ChainAbove(d, n, c);
    }
  }

  lemma ParentKnown(preds: Predecessors, d: seq<nat>, i: nat)
    requires i < |d| - 1 && Guesses(preds, d, i + 1)
    ensures Known(d, Parent(preds, i)) && Parent(preds, i) in preds[i]
  {
    NextKnown(preds, d, i);
  }

  /** The intersection of the chains of all predecessors that have one; there always is one. */
  method NewGuess(preds: Predecessors, doms: array<nat>, i: nat) returns (newIDomIdx: nat)
    requires i < doms.Length - 1 && Guesses(preds, doms[..], i + 1)
    ensures Nearest(preds, doms[..], i, newIDomIdx)
  {
    hide Guesses, Nearest, Chain;
    ghost var d := doms[..];
    PredecessorsInRange(preds, d, i);
    var predecessors := preds[i];
    newIDomIdx := UNDEFINED;
    var k := 0;
    while k < |predecessors|
      invariant 0 <= k <= |predecessors| && newIDomIdx == UNDEFINED
      invariant forall j :: 0 <= j < k ==> !Known(d, predecessors[j])
    {
      var idx := predecessors[k];
      if doms[idx] != UNDEFINED {
        newIDomIdx := idx;
        break;
      }
      k := k + 1;
    }
    ParentKnown(preds, d, i);
    assert newIDomIdx != UNDEFINED;
    ghost var first := newIDomIdx;
    OwnChain(d, first);
    while k < |predecessors|
      invariant 0 <= k <= |predecessors|
      invariant MeetsFirst(d, predecessors, k, first, newIDomIdx)
    {
      var idx := predecessors[k];
      if doms[idx] != UNDEFINED {
        ghost var n := newIDomIdx;
        newIDomIdx := Intersect(doms, newIDomIdx, idx);
        MeetsNext(d, predecessors, k, first, n, newIDomIdx);
      } else {
        MeetsSkip(d, predecessors, k, first, newIDomIdx);
      }
      k := k + 1;
    }
    MeetsAll(preds, d, i, first, newIDomIdx);
  }

  lemma PredecessorsInRange(preds: Predecessors, d: seq<nat>, i: nat)
    requires i < |d| - 1 && Guesses(preds, d, i + 1)
    ensures TreeOf(d) && i < |preds| && forall j :: 0 <= j < |preds[i]| ==> preds[i][j] < |d|
  {
  }

  lemma OwnChain(d: seq<nat>, x: nat)
    requires TreeOf(d) && Known(d, x)
    ensures x in Chain(d, x)
  {
  }

  lemma MeetsSkip(d: seq<nat>, ps: seq<nat>, k: nat, first: nat, n: nat)
    requires TreeOf(d) && k < |ps| && Known(d, first) && MeetsFirst(d, ps, k, first, n) && !Known(d, ps[k])
    ensures MeetsFirst(d, ps, k + 1, first, n)
  {
    forall c | c in Chain(d, first) && CommonFirst(d, ps, k + 1, c) ensures c in Chain(d, n) {
      assert CommonFirst(d, ps, k, c);
    }
  }

  /** How far the guesses can still move up. */
  ghost function Slack(d: seq<nat>, top: nat): nat {
    if d == [] then 0
    else
      var x := d[|d| - 1];
      Slack(d[..|d| - 1], top) + (if x == UNDEFINED then top + 1 else if x <= top then top - x else 0)
  }

  lemma {:induction false} SlackFalls(d: seq<nat>, top: nat, i: nat, n: nat)
    requires i < |d| && n <= top < UNDEFINED && (d[i] == UNDEFINED || d[i] < n)
    ensures Slack(d[i := n], top) < Slack(d, top)
    decreases |d|
  {
    var m := |d| - 1;
    if i < m {
      SlackFalls(d[..m], top, i, n);
      assert d[i := n][..m] == d[..m][i := n];
    } else {
      assert d[i := n][..m] == d[..m];
    }
  }

  /** The guesses of the nodes from `from` on are common to all their predecessors. */
  ghost predicate Settled(preds: Predecessors, d: seq<nat>, from: nat)
    requires Numbered(preds) && |d| == |preds| && TreeOf(d)
  {
    forall x :: from <= x < |d| - 1 ==> Known(d, x) && Common(preds, d, x, d[x])
  }

  /** One pass in reverse post order. It moves guesses up, or finds all of them settled. */
  method Pass(preds: Predecessors, doms: array<nat>) returns (changed: bool)
    requires doms.Length > 0 && Guesses(preds, doms[..], doms.Length - 1)
    modifies doms
    ensures Guesses(preds, doms[..], 0)
    ensures changed ==> Slack(doms[..], doms.Length) < Slack(old(doms[..]), doms.Length)
    ensures !changed ==> doms[..] == old(doms[..]) && Settled(preds, doms[..], 0)
  {
    hide Guesses, Nearest, Common, Chain, Slack;
    GuessesTree(preds, doms[..], doms.Length - 1);
    changed := false;
    var indexPlusOne := doms.Length - 1;
    while indexPlusOne > 0
      invariant 0 <= indexPlusOne <= doms.Length - 1
      invariant Guesses(preds, doms[..], indexPlusOne)
      invariant Numbered(preds) && |doms[..]| == |preds| && TreeOf(doms[..])
      invariant changed ==> Slack(doms[..], doms.Length) < Slack(old(doms[..]), doms.Length)
      invariant !changed ==> doms[..] == old(doms[..]) && Settled(preds, doms[..], indexPlusOne)
    {
      ghost var d := doms[..];
      var newIDomIdx := NewGuess(preds, doms, indexPlusOne - 1);
      UpdateKeepsGuesses(preds, d, indexPlusOne - 1, newIDomIdx);
      GuessesTree(preds, d[indexPlusOne - 1 := newIDomIdx], indexPlusOne - 1);
      if newIDomIdx != doms[indexPlusOne - 1] {
        SlackFalls(d, doms.Length, indexPlusOne - 1, newIDomIdx);
        doms[indexPlusOne - 1] := newIDomIdx;
        changed := true;
        assert doms[..] == d[indexPlusOne - 1 := newIDomIdx];
      } else {
        assert d[indexPlusOne - 1 := newIDomIdx] == d;
      }
      indexPlusOne := indexPlusOne - 1;
    }
  }

  lemma GuessesTree(preds: Predecessors, d: seq<nat>, from: nat)
    requires Guesses(preds, d, from)
    ensures Numbered(preds) && |d| == |preds| && TreeOf(d)
  {
  }

  /** A node's chain is exactly its dominators, and its guess is its one immediate dominator. */
  ghost predicate AreDominators(preds: Predecessors, d: seq<nat>) {
    && |d| == |preds| && TreeOf(d) && (forall x :: 0 <= x < |d| ==> Known(d, x))
    && (forall x, a: nat :: 0 <= x < |d| ==> (a in Chain(d, x) <==> Dominates(preds, a, x)))
    && (forall x, a: nat :: 0 <= x < |d| - 1 ==> (ImmediatelyDominates(preds, a, x) <==> a == d[x]))
  }

  /** Along any path, settled guesses pass no node by. */
  lemma {:induction false} SettledDominate(preds: Predecessors, d: seq<nat>, q: seq<nat>, a: nat)
    requires Guesses(preds, d, 0) && Settled(preds, d, 0) && RootPath(preds, q)
    requires Known(d, q[|q| - 1]) && a in Chain(d, q[|q| - 1])
    ensures a in q
    decreases |q|
  {
    hide Guesses, Settled;
    GuessesTree(preds, d, 0);
    var x := q[|q| - 1];
    if |q| > 1 && a != x && x < |d| - 1 {
      var p := q[|q| - 2];
      GuessIsInChain(preds, d, x, p);
      SettledDominate(preds, d, q[..|q| - 1], a);
    }
  }

  /** A settled node's guess, and all above it, is in the chain of each of its predecessors. */
  lemma GuessIsInChain(preds: Predecessors, d: seq<nat>, x: nat, p: nat)
    requires Guesses(preds, d, 0) && Settled(preds, d, 0) && x < |d| - 1 && p in preds[x]
    ensures Known(d, x) && Known(d, p) && Known(d, d[x]) && Chain(d, d[x]) <= Chain(d, p)
  {
    assert Known(d, x) && Common(preds, d, x, d[x]);
    AllKnown(preds, d, p);
    ChainAbove(d, p, d[x]);
  }

  lemma AllKnown(preds: Predecessors, d: seq<nat>, x: nat)
    requires Guesses(preds, d, 0) && x < |d|
    ensures Known(d, x)
  {
    if x < |d| - 1 {
      assert VisitedAt(preds, d, x);
    }
  }

  lemma ChainsAreDominators(preds: Predecessors, d: seq<nat>)
    requires Guesses(preds, d, 0) && Settled(preds, d, 0)
    ensures forall x :: 0 <= x < |d| ==> Known(d, x)
    ensures forall x, a: nat :: 0 <= x < |d| ==> (a in Chain(d, x) <==> Dominates(preds, a, x))
  {
    hide Chain, Visited, NotTooHigh, Settled, Ancestors, KnownUpward;
    forall x | 0 <= x < |d| ensures Known(d, x) {
      AllKnown(preds, d, x);
    }
    forall x, a: nat | 0 <= x < |d| ensures a in Chain(d, x) <==> Dominates(preds, a, x) {
      if a in Chain(d, x) {
        forall q | RootPath(preds, q) && q[|q| - 1] == x ensures a in q {
          SettledDominate(preds, d, q, a);
        }
      }
    }
  }

  lemma NextIsImmediate(preds: Predecessors, d: seq<nat>, x: nat)
    requires TreeOf(d) && |d| == |preds| && x < |d| - 1 && (forall y :: 0 <= y < |d| ==> Known(d, y))
    requires forall y, a: nat :: 0 <= y < |d| ==> (a in Chain(d, y) <==> Dominates(preds, a, y))
    ensures forall a: nat :: ImmediatelyDominates(preds, a, x) <==> a == d[x]
  {
    hide Dominates;
    assert Known(d, x);
    OwnChain(d, d[x]);
    forall c: nat | c < |preds| && c != d[x] && c != x && Dominates(preds, c, x) ensures !Dominates(preds, d[x], c) {
      assert c in Chain(d, d[x]);
      ChainAbove(d, d[x], c);
      ChainAboveAll(d, c);
    }
    assert Dominates(preds, d[x], x) && d[x] != x;
  }

  lemma FixpointIsCorrect(preds: Predecessors, d: seq<nat>)
    requires Guesses(preds, d, 0) && Settled(preds, d, 0)
    ensures AreDominators(preds, d)
  {
    ChainsAreDominators(preds, d);
    forall x, a: nat | 0 <= x < |d| - 1 ensures ImmediatelyDominates(preds, a, x) <==> a == d[x] {
      NextIsImmediate(preds, d, x);
    }
  }

  /** Nothing but the root has a guess. */
  ghost predicate Blank(d: seq<nat>) {
    && 0 < |d| < UNDEFINED && d[|d| - 1] == |d| - 1
    && forall i :: 0 <= i < |d| - 1 ==> d[i] == UNDEFINED
  }

  lemma BlankGuesses(preds: Predecessors, d: seq<nat>)
    requires Numbered(preds) && |d| == |preds| && Blank(d)
    ensures Guesses(preds, d, |d| - 1)
  {
    assert RootPath(preds, [|d| - 1]);
    forall x: nat, a: nat | Known(d, x) && Dominates(preds, a, x) ensures a in Chain(d, x) {
      assert x == |d| - 1 && a in [|d| - 1];
    }
  }

  method InitializeDominators(length: nat) returns (doms: array<nat>)
    requires 0 < length < UNDEFINED
    ensures fresh(doms) && doms.Length == length && Blank(doms[..])
  {
    doms := new nat[length];
    doms[length - 1] := length - 1;
    var i := 0;
    while i < length - 1
      invariant 0 <= i <= length - 1 && doms[length - 1] == length - 1
      invariant forall k :: 0 <= k < i ==> doms[k] == UNDEFINED
    {
      doms[i] := UNDEFINED;
      i := i + 1;
    }
  }

  /** Passes until nothing changes. This ends, and finds every immediate dominator. */
  method ComputeDominators(preds: Predecessors) returns (doms: array<nat>)
    requires Numbered(preds)
    ensures fresh(doms) && AreDominators(preds, doms[..])
  {
    hide Guesses, Settled, AreDominators, Slack, Blank;
    doms := InitializeDominators(|preds|);
    BlankGuesses(preds, doms[..]);
    var changed := true;
    while changed
      invariant fresh(doms) && doms.Length == |preds|
      invariant Guesses(preds, doms[..], doms.Length - 1)
      invariant !changed ==> AreDominators(preds, doms[..])
      decreases Slack(doms[..], doms.Length), changed
    {
      changed := Pass(preds, doms);
      if !changed {
        GuessesTree(preds, doms[..], 0);
        FixpointIsCorrect(preds, doms[..]);
      }
      FewerVisited(preds, doms[..]);
    }
  }

  lemma FewerVisited(preds: Predecessors, d: seq<nat>)
    requires Guesses(preds, d, 0)
    ensures Guesses(preds, d, |d| - 1)
  {
  }
}
