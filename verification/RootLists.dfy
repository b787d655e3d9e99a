/**
 The lists of stack roots of `public/RootingAPI.h`. A root registers itself at the head of
 the list of its kind when constructed and restores the head when destroyed. `Rooted`
 (`stack`, `prev`) and `AutoGCRooter` (`stackTop`, `down`) do the same thing to two arrays
 of list heads; here one array holds the heads of all kinds of both.
 */
module RootLists {

  class Rooted {
    const kind: nat
    const prev: Rooted?

    /** `registerWithRootLists`: the old head is remembered, and this root becomes the head. */
    constructor (kind: nat, heads: array<Rooted?>)
      requires kind < heads.Length
      modifies heads
      ensures this.kind == kind && prev == old(heads[kind])
      ensures heads[..] == old(heads[..])[kind := this]
    {
      this.kind := kind;
      this.prev := heads[kind];
      new;
      heads[kind] := this;
    }
  }

  /** Following `prev` from a head passes the given roots in order and then arrives at `base`. */
  ghost predicate ListIs(head: Rooted?, roots: seq<Rooted>, base: Rooted?) {
    if roots == [] then head == base else head == roots[0] && ListIs(roots[0].prev, roots[1..], base)
  }

  /** The roots of one kind, newest first, among all live roots, oldest first. */
  ghost function OfKind(live: seq<Rooted>, kind: nat): seq<Rooted> {
    if live == [] then []
    else
      var r := live[|live| - 1];
      (if r.kind == kind then [r] else []) + OfKind(live[..|live| - 1], kind)
  }

  lemma OfKindAppend(live: seq<Rooted>, r: Rooted, kind: nat)
    ensures OfKind(live + [r], kind) == if r.kind == kind then [r] + OfKind(live, kind) else OfKind(live, kind)
  {
    assert (live + [r])[..|live|] == live;
    assert [] + OfKind(live, kind) == OfKind(live, kind);
  }

  /** Exactly the live roots of the kind are listed, each as often as it is live. */
  lemma {:induction false} OfKindHas(live: seq<Rooted>, kind: nat, r: Rooted)
    ensures multiset(OfKind(live, kind))[r] == if r.kind == kind then multiset(live)[r] else 0
    decreases |live|
  {
    if live != [] {
      var front, last := live[..|live| - 1], live[|live| - 1];
      assert live == front + [last];
      OfKindHas(front, kind, r);
    }
  }

  lemma ListIsCons(r: Rooted, roots: seq<Rooted>, base: Rooted?)
    ensures ListIs(r, [r] + roots, base) <==> ListIs(r.prev, roots, base)
  {
    assert ([r] + roots)[1..] == roots;
  }

  /** Nested lifetimes: each scope declares a root of some kind, runs its inner scopes, and destroys the root. */
  datatype Scope = Scope(kind: nat, inner: seq<Scope>)

  ghost predicate KindsBelow(scopes: seq<Scope>, n: nat) {
    forall i :: 0 <= i < |scopes| ==> scopes[i].kind < n && KindsBelow(scopes[i].inner, n)
  }

  class RootingContext {
    const heads: array<Rooted?>

    // The live roots in the order constructed, and the heads below all of them.
    ghost var live: seq<Rooted>
    ghost var base: seq<Rooted?>

    /** Each kind's list holds exactly the live roots of that kind, newest first, above its original head. */
    ghost predicate Valid()
      reads this, heads
    {
      && |base| == heads.Length
      && (forall i :: 0 <= i < |live| ==> live[i].kind < heads.Length)
      && (forall k :: 0 <= k < heads.Length ==> ListIs(heads[k], OfKind(live, k), base[k]))
    }

    constructor (heads: array<Rooted?>)
      ensures Valid() && this.heads == heads && live == [] && base == heads[..]
    {
      this.heads := heads;
      live, base := [], heads[..];
    }

    method Register(kind: nat) returns (r: Rooted)
      requires Valid() && kind < heads.Length
      modifies this`live, heads
      ensures Valid() && live == old(live) + [r] && r.kind == kind && fresh(r)
      ensures r.prev == old(heads[kind]) && heads[..] == old(heads[..])[kind := r]
    {
      r := new Rooted(kind, heads);
      live := live + [r];
      forall k | 0 <= k < heads.Length ensures ListIs(heads[k], OfKind(live, k), base[k]) {
        OfKindAppend(old(live), r, k);
        ListIsCons(r, OfKind(old(live), k), base[k]);
      }
    }

    /** The destructor. Its assertion holds because roots are destroyed in the reverse of their order of construction. */
    method Unregister(r: Rooted)
      requires Valid() && live != [] && r == live[|live| - 1]
      modifies this`live, heads
      ensures Valid() && live == old(live)[..|old(live)| - 1]
      ensures heads[..] == old(heads[..])[r.kind := r.prev]
    {
      ghost var rest := live[..|live| - 1];
      assert live == rest + [r];
      OfKindAppend(rest, r, r.kind);
      assert heads[r.kind] == r;
      heads[r.kind] := r.prev;
      live := rest;
      forall k | 0 <= k < heads.Length ensures ListIs(heads[k], OfKind(live, k), base[k]) {
        OfKindAppend(rest, r, k);
        ListIsCons(r, OfKind(rest, k), base[k]);
      }
    }

    /** Following a list from its head, as tracing does, meets the live roots of that kind and no others. */
    method Walk(kind: nat) returns (found: seq<Rooted>)
      requires Valid() && kind < heads.Length && base[kind] == null
      ensures found == OfKind(live, kind)
    {
      found := [];
      var root := heads[kind];
      ghost var rest := OfKind(live, kind);
      while root != null
        invariant ListIs(root, rest, null)
        invariant found + rest == OfKind(live, kind)
        decreases |rest|
      {
        assert rest[0] == root;
        found, rest := found + [root], rest[1..];
        root := root.prev;
      }
    }

    /** Runs nested scopes one after another: whatever their kinds and nesting, every head ends as it began. */
    method Run(scopes: seq<Scope>)
      requires Valid() && KindsBelow(scopes, heads.Length)
      modifies this`live, heads
      ensures Valid() && live == old(live) && heads[..] == old(heads[..])
      decreases scopes
    {
      var i := 0;
      while i < |scopes|
        invariant 0 <= i <= |scopes|
        invariant Valid() && live == old(live) && heads[..] == old(heads[..])
      {
        var r := Register(scopes[i].kind);
        Run(scopes[i].inner);
        Unregister(r);
        i := i + 1;
      }
    }
  }
}
