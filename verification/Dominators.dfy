/**
 The fixpoint loop of `public/UbiNodeDominatorTree.h`, on indices: node `i` has the
 predecessors `preds[i]`, and the last index is the root. All that is assumed of the
 numbering is that every node but the root has a predecessor with a greater index, which
 holds of a depth-first post order.

 `doms[i]` is the current guess at the immediate dominator of `i`. Following guesses climbs
 to the root; the nodes passed are the current guess at the dominators of `i`.
 */
module Dominators {

  const UNDEFINED: nat := 0xFFFF_FFFF

  type Predecessors = seq<seq<nat>>

  ghost predicate Numbered(preds: Predecessors) {
    && 0 < |preds| < UNDEFINED
    && (forall i, k :: 0 <= i < |preds| && 0 <= k < |preds[i]| ==> preds[i][k] < |preds|)
    && (forall i :: 0 <= i < |preds| - 1 ==> HasLaterPredecessor(preds, i))
  }

  ghost predicate HasLaterPredecessor(preds: Predecessors, i: nat)
    requires i < |preds|
  {
    exists p :: p in preds[i] && p > i
  }

  // ---------------------------------------------------------------------------
  // Dominators
  // ---------------------------------------------------------------------------

  /** A path from the root. */
  ghost predicate RootPath(preds: Predecessors, q: seq<nat>) {
    && q != [] && q[|q| - 1] < |preds|
    && if |q| == 1 then q[0] == |preds| - 1 else RootPath(preds, q[..|q| - 1]) && q[|q| - 2] in preds[q[|q| - 1]]
  }

  /** Every path from the root to `b` contains `a`. */
  ghost predicate Dominates(preds: Predecessors, a: nat, b: nat) {
    forall q :: RootPath(preds, q) && q[|q| - 1] == b ==> a in q
  }

  /** `a` dominates `b`, is not `b`, and dominates no other node that dominates `b`. */
  ghost predicate ImmediatelyDominates(preds: Predecessors, a: nat, b: nat) {
    && a != b && Dominates(preds, a, b)
    && forall c: nat :: c < |preds| && c != a && c != b && Dominates(preds, c, b) ==> !Dominates(preds, a, c)
  }

  /** Some predecessor with a greater index. */
  ghost function Parent(preds: Predecessors, i: nat): (p: nat)
    requires Numbered(preds) && i < |preds| - 1
    ensures p in preds[i] && i < p < |preds|
  {
    assert HasLaterPredecessor(preds, i);
    var p :| p in preds[i] && p > i;
    p
  }

  /** The nodes reached by climbing from parent to parent. */
  ghost function Ancestors(preds: Predecessors, x: nat): set<nat>
    requires Numbered(preds) && x < |preds|
    decreases |preds| - x
  {
    if x == |preds| - 1 then {x} else {x} + Ancestors(preds, Parent(preds, x))
  }

  lemma {:induction false} AncestorsAbove(preds: Predecessors, x: nat, a: nat)
    requires Numbered(preds) && x < |preds| && a in Ancestors(preds, x)
    ensures x <= a < |preds|
    ensures Ancestors(preds, a) <= Ancestors(preds, x)
    decreases |preds| - x
  {
    if a != x {
      AncestorsAbove(preds, Parent(preds, x), a);
    }
  }

  /** From an ancestor `i` a path leads down to `x` through no index above `i`. */
  lemma {:induction false} PathExtendsDown(preds: Predecessors, q: seq<nat>, i: nat, x: nat) returns (r: seq<nat>)
    requires Numbered(preds) && x < |preds| && i in Ancestors(preds, x) && RootPath(preds, q) && q[|q| - 1] == i
    ensures RootPath(preds, r) && r[|r| - 1] == x
    ensures forall a :: a in r && a !in q ==> a <= i
    decreases |preds| - x
  {
    AncestorsAbove(preds, x, i);
    if x == i {
      r := q;
    } else {
      var up := PathExtendsDown(preds, q, i, Parent(preds, x));
      r := up + [x];
      assert r[..|r| - 1] == up;
    }
  }

  lemma {:induction false} RootedPathExists(preds: Predecessors, x: nat) returns (q: seq<nat>)
    requires Numbered(preds) && x < |preds|
    ensures RootPath(preds, q) && q[|q| - 1] == x
    decreases |preds| - x
  {
    if x == |preds| - 1 {
      q := [x];
    } else {
      var up := RootedPathExists(preds, Parent(preds, x));
      q := up + [x];
      assert q[..|q| - 1] == up;
    }
  }

  /** What dominates a node dominates each of its predecessors, unless it is the node itself. */
  lemma DominatesPredecessor(preds: Predecessors, a: nat, p: nat, x: nat)
    requires Dominates(preds, a, x) && a != x && x < |preds| && p in preds[x]
    ensures Dominates(preds, a, p)
  {
    forall q | RootPath(preds, q) && q[|q| - 1] == p ensures a in q {
      assert (q + [x])[..|q|] == q;
      assert RootPath(preds, q + [x]);
    }
  }

  /** What dominates a node from above one of its ancestors dominates that ancestor. */
  lemma DominatesAncestor(preds: Predecessors, a: nat, i: nat, x: nat)
    requires Numbered(preds) && x < |preds| && i in Ancestors(preds, x) && Dominates(preds, a, x) && a > i
    ensures Dominates(preds, a, i)
  {
    forall q | RootPath(preds, q) && q[|q| - 1] == i ensures a in q {
      var r := PathExtendsDown(preds, q, i, x);
    }
  }

  // ---------------------------------------------------------------------------
  // The guesses
  // ---------------------------------------------------------------------------

  ghost predicate Known(d: seq<nat>, x: nat) {
    x < |d| && d[x] != UNDEFINED
  }

  /** Guesses point up to nodes with guesses; the root points to itself. */
  ghost predicate TreeOf(d: seq<nat>) {
    && 0 < |d| < UNDEFINED && d[|d| - 1] == |d| - 1
    && forall i :: 0 <= i < |d| - 1 && d[i] != UNDEFINED ==> i < d[i] < |d| && d[d[i]] != UNDEFINED
  }

  /** The guessed dominators of `x`. */
  ghost function Chain(d: seq<nat>, x: nat): set<nat>
    requires TreeOf(d) && Known(d, x)
    decreases |d| - x
  {
    if x == |d| - 1 then {x} else {x} + Chain(d, d[x])
  }

  lemma {:induction false} ChainAbove(d: seq<nat>, x: nat, c: nat)
    requires TreeOf(d) && Known(d, x) && c in Chain(d, x)
    ensures x <= c && Known(d, c) && Chain(d, c) <= Chain(d, x)
    decreases |d| - x
  {
    if c != x {
      ChainAbove(d, d[x], c);
    }
  }

  /** The rest of a chain from one of its nodes on is that node's chain. */
  lemma {:induction false} ChainFrom(d: seq<nat>, x: nat, c: nat, y: nat)
    requires TreeOf(d) && Known(d, x) && c in Chain(d, x) && y in Chain(d, x) && y >= c
    ensures Known(d, c) && y in Chain(d, c)
    decreases |d| - x
  {
    if c != x {
      ChainAbove(d, d[x], c);
      ChainFrom(d, d[x], c, y);
    }
  }

  /** Where two chains meet: the first node common to both. */
  ghost predicate Meet(d: seq<nat>, a: nat, b: nat, r: nat)
    requires TreeOf(d) && Known(d, a) && Known(d, b)
  {
    r in Chain(d, a) && r in Chain(d, b) && forall c :: c in Chain(d, a) && c in Chain(d, b) ==> c >= r
  }

  method Intersect(doms: array<nat>, finger1: nat, finger2: nat) returns (r: nat)
    requires TreeOf(doms[..]) && Known(doms[..], finger1) && Known(doms[..], finger2)
    ensures Meet(doms[..], finger1, finger2, r)
  {
    ghost var d := doms[..];
    var a, b := finger1, finger2;
    while a != b
      invariant Known(d, a) && Known(d, b)
      invariant Chain(d, a) <= Chain(d, finger1) && Chain(d, b) <= Chain(d, finger2)
      invariant forall c :: c in Chain(d, finger1) && c in Chain(d, finger2) ==> c in Chain(d, a) && c in Chain(d, b)
      decreases (|d| - a) + (|d| - b)
    {
      FingersApart(d, a, b);
      if a < b {
        a := doms[a];
      } else if b < a {
        b := doms[b];
      }
    }
    FingersApart(d, a, b);
    r := a;
  }

  /** The lower of two fingers is in no chain of the other. */
  lemma FingersApart(d: seq<nat>, a: nat, b: nat)
    requires TreeOf(d) && Known(d, a) && Known(d, b)
    ensures a in Chain(d, a) && b in Chain(d, b)
    ensures a < b ==> a !in Chain(d, b) && a < |d| - 1
    ensures b < a ==> b !in Chain(d, a) && b < |d| - 1
    ensures forall c :: c in Chain(d, a) ==> c >= a
  {
    forall c | c in Chain(d, a) ensures c >= a {
      ChainAbove(d, a, c);
    }
    forall c | c in Chain(d, b) ensures c >= b {
      ChainAbove(d, b, c);
    }
  }
}
