/**
 Sweeping a vector in place: `GCVector::sweep` of `public/GCVector.h`.
 */
module GCVectors {

  /** What one `needsSweep` call answers about an element, and what it leaves in it. */
  datatype Verdict<T> = Verdict(dies: bool, updated: T)

  /** The elements that stay, each as its `needsSweep` call left it, in their order. */
  ghost function Swept<T>(s: seq<T>, policy: T -> Verdict<T>): seq<T> {
    if s == [] then []
    else
      var v := policy(s[|s| - 1]);
      Swept(s[..|s| - 1], policy) + (if v.dies then [] else [v.updated])
  }

  /** Membership and order, stated by position: the k-th survivor comes from the k-th surviving position. */
  ghost function Survivors<T>(s: seq<T>, policy: T -> Verdict<T>): seq<nat> {
    if s == [] then []
    else Survivors(s[..|s| - 1], policy) + (if policy(s[|s| - 1]).dies then [] else [|s| - 1])
  }

  /**
   The swept contents are an order-preserving filter: survivors keep their relative order,
   every surviving position is represented, and no other.
   */
  lemma {:induction false} SweptIsFilter<T>(s: seq<T>, policy: T -> Verdict<T>)
    ensures var at, t := Survivors(s, policy), Swept(s, policy);
            && |t| == |at| <= |s|
            && (forall k :: 0 <= k < |at| ==> at[k] < |s| && !policy(s[at[k]]).dies && t[k] == policy(s[at[k]]).updated)
            && (forall k, l :: 0 <= k < l < |at| ==> at[k] < at[l])
            && (forall i :: 0 <= i < |s| && !policy(s[i]).dies ==> i in at)
    decreases |s|
  {
    if s != [] {
      var front, n := s[..|s| - 1], |s| - 1;
      SweptIsFilter(front, policy);
      var at, t := Survivors(front, policy), Swept(front, policy);
      assert Survivors(s, policy) == at + (if policy(s[n]).dies then [] else [n]);
      assert Swept(s, policy) == t + (if policy(s[n]).dies then [] else [policy(s[n]).updated]);
      assert forall i :: 0 <= i < n ==> front[i] == s[i];
      hide Survivors, Swept;
    }
  }

  lemma SweptNone<T>(policy: T -> Verdict<T>)
    ensures Swept([], policy) == []
  {
  }

  lemma SweptNext<T>(s: seq<T>, i: nat, policy: T -> Verdict<T>)
    requires i < |s|
    ensures s[..i + 1] == s[..i] + [s[i]]
    ensures Swept(s[..i + 1], policy) == Swept(s[..i], policy) + (if policy(s[i]).dies then [] else [policy(s[i]).updated])
  {
    assert s[..i + 1][..i] == s[..i];
  }

  class GCVector<T> {
    var data: array<T>
    var length: nat

    // The elements `needsSweep` was called on, in order.
    ghost var swept: seq<T>

    ghost predicate Valid()
      reads this
    {
      length <= data.Length
    }

    ghost function Contents(): seq<T>
      requires Valid()
      reads this, data
    {
      data[..length]
    }

    constructor (data: array<T>)
      ensures Valid() && this.data == data && length == data.Length && swept == []
    {
      this.data, length, swept := data, data.Length, [];
    }

    /** Calls the policy on an element in place, and records the call. */
    method NeedsSweep(src: nat, policy: T -> Verdict<T>) returns (dies: bool)
      requires Valid() && src < length
      modifies data, this`swept
      ensures dies == policy(old(data[src])).dies
      ensures data[..] == old(data[..])[src := policy(old(data[src])).updated]
      ensures swept == old(swept) + [old(data[src])]
    {
      swept := swept + [data[src]];
      var v := policy(data[src]);
      data[src] := v.updated;
      dies := v.dies;
    }

    /** Moves an element down; what is left in a moved-from slot is unspecified. */
    method Move(dst: nat, src: nat)
      requires Valid() && dst < src < length
      modifies data
      ensures data[dst] == old(data[src])
      ensures forall k :: 0 <= k < data.Length && k != dst && k != src ==> data[k] == old(data[k])
      ensures data[..dst] == old(data[..dst]) && data[src + 1..] == old(data[src + 1..])
    {
      data[dst] := data[src];
      data[src] := *;
    }

    /**
     Leaves exactly the elements that need no sweeping, updated and in order, after one
     `needsSweep` call on each original element.
     */
    method Sweep(policy: T -> Verdict<T>)
      requires Valid()
      modifies this`length, this`swept, data
      ensures Valid() && Contents() == Swept(old(Contents()), policy)
      ensures swept == old(swept) + old(Contents())
      ensures forall k :: old(length) <= k < data.Length ==> data[k] == old(data[k])
    {
      hide Swept;
      ghost var original := Contents();
      var src, dst := 0, 0;
      SweptNone(policy);
      while src != length
        invariant dst <= src <= length == |original| && Valid()
        invariant data[..dst] == Swept(original[..src], policy)
        invariant data[src..] == old(data[src..])
        invariant swept == old(swept) + original[..src]
      {
        SweptNext(original, src, policy);
        assert data[src] == original[src];
        ghost var before := data[..];
        var dies := NeedsSweep(src, policy);
        assert data[..dst] == before[..dst] && data[src + 1..] == before[src + 1..];
        if !dies {
          if src != dst {
            Move(dst, src);
          }
          assert data[..dst + 1] == before[..dst] + [policy(original[src]).updated];
          dst := dst + 1;
        }
        src := src + 1;
        assert data[src..] == before[src..] == old(data[src..]);
      }
      assert original[..src] == original;
      ShrinkBy(length - dst);
    }

    method ShrinkBy(n: nat)
      requires Valid() && n <= length
      modifies this`length
      ensures Valid() && length == old(length) - n
    {
      length := length - n;
    }
  }
}
