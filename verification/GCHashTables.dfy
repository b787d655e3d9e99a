/**
 Sweeping hash maps after a moving collection: `GCRekeyableHashMap::sweep` of
 `public/GCHashTable.h`, over the slots of the table.

 A rekeyed entry goes to some free slot, which may lie ahead of the enumeration (the entry
 is then met again) or behind it; a target key may still be held by an entry about to be
 dropped, so two entries can share a key for a while.
 */
module GCHashTables {

  datatype Slot<K, V> = Free | Full(key: K, value: V)

  /** What `needsSweep` decides about an entry, and how it updates the key and value of one that lives. */
  datatype Policy<!K, !V> = Policy(dies: (K, V) -> bool, key: K -> K, value: V -> V)

  /** The entry in a slot, if any. */
  ghost function EntryIn<K, V>(s: Slot<K, V>): multiset<(K, V)> {
    if s.Full? then multiset{(s.key, s.value)} else multiset{}
  }

  /** What becomes of a slot's entry: dropped, or moved to its new key. */
  ghost function SurvivorIn<K, V>(p: Policy<K, V>, s: Slot<K, V>): multiset<(K, V)> {
    if s.Full? && !p.dies(s.key, s.value) then multiset{(p.key(s.key), p.value(s.value))} else multiset{}
  }

  ghost function Entries<K, V>(slots: seq<Slot<K, V>>): multiset<(K, V)> {
    if slots == [] then multiset{} else Entries(slots[..|slots| - 1]) + EntryIn(slots[|slots| - 1])
  }

  /** The entries a sweep must leave: the live ones, each under its new key with its updated value. */
  ghost function Survivors<K, V>(p: Policy<K, V>, slots: seq<Slot<K, V>>): multiset<(K, V)> {
    if slots == [] then multiset{} else Survivors(p, slots[..|slots| - 1]) + SurvivorIn(p, slots[|slots| - 1])
  }

  lemma {:induction false} SurvivorsUpdate<K, V>(p: Policy<K, V>, slots: seq<Slot<K, V>>, i: nat, s: Slot<K, V>)
    requires i < |slots|
    ensures Survivors(p, slots[i := s]) + SurvivorIn(p, slots[i]) == Survivors(p, slots) + SurvivorIn(p, s)
    decreases |slots|
  {
    hide SurvivorIn;
    var n := |slots| - 1;
    if i < n {
      SurvivorsUpdate(p, slots[..n], i, s);
      assert slots[i := s][..n] == slots[..n][i := s];
      AddBoth(Survivors(p, slots[..n][i := s]), SurvivorIn(p, slots[i]), Survivors(p, slots[..n]), SurvivorIn(p, s),
              SurvivorIn(p, slots[n]));
    } else {
      assert slots[i := s][..n] == slots[..n];
      Exchange(Survivors(p, slots[..n]), SurvivorIn(p, s), SurvivorIn(p, slots[n]));
    }
  }

  lemma AddBoth<T>(a: multiset<T>, x: multiset<T>, b: multiset<T>, y: multiset<T>, z: multiset<T>)
    requires a + x == b + y
    ensures (a + z) + x == (b + z) + y
  {
    Exchange(a, z, x);
    Exchange(b, z, y);
  }

  lemma Exchange<T>(a: multiset<T>, x: multiset<T>, y: multiset<T>)
    ensures (a + x) + y == (a + y) + x
  {
  }

  lemma AddNothing<T>(a: multiset<T>, x: multiset<T>)
    requires x == multiset{}
    ensures a + x == a
  {
  }

  /** Free, or holding a live entry that a sweep would not change. */
  ghost predicate Settled<K, V>(p: Policy<K, V>, s: Slot<K, V>) {
    s.Full? ==> !p.dies(s.key, s.value) && p.key(s.key) == s.key && p.value(s.value) == s.value
  }

  /** An entry that lives is live and unchanged when looked at again under its new key. */
  ghost predicate Stable<K, V>(p: Policy<K, V>, s: Slot<K, V>) {
    s.Full? && !p.dies(s.key, s.value) ==> Settled(p, Full(p.key(s.key), p.value(s.value)))
  }

  lemma {:induction false} SettledEntries<K, V>(p: Policy<K, V>, slots: seq<Slot<K, V>>)
    requires forall i :: 0 <= i < |slots| ==> Settled(p, slots[i])
    ensures Entries(slots) == Survivors(p, slots)
    decreases |slots|
  {
    if slots != [] {
      SettledEntries(p, slots[..|slots| - 1]);
    }
  }

  class RekeyableHashMap<K(==), V> {
    var slots: array<Slot<K, V>>

    constructor (slots: array<Slot<K, V>>)
      ensures this.slots == slots
    {
      this.slots := slots;
    }

    /** Takes the entry out of its slot and puts it, under a new key, into some free slot. */
    method RekeyFront(i: nat, key: K) returns (ghost j: nat)
      requires i < slots.Length && slots[i].Full?
      modifies slots
      ensures j < slots.Length && old(slots[..])[i := Free][j].Free?
      ensures slots[..] == old(slots[..])[i := Free][j := Full(key, old(slots[i].value))]
    {
      var moved := Full(key, slots[i].value);
      slots[i] := Free;
      var free :| 0 <= free < slots.Length && slots[free].Free?;
      slots[free] := moved;
      j := free;
    }

    /**
     The sweep ends with exactly the live entries, each under its new key, whatever free
     slots the rekeyed entries were given.
     */
    method Sweep(p: Policy<K, V>)
      requires forall i :: 0 <= i < slots.Length ==> Stable(p, slots[i])
      modifies slots
      ensures Entries(slots[..]) == old(Survivors(p, slots[..]))
      ensures var was := old(slots[..]);
              forall i :: 0 <= i < slots.Length && slots[i].Full? ==>
                exists j :: 0 <= j < |was| && was[j].Full? && !p.dies(was[j].key, was[j].value)
                            && slots[i] == Full(p.key(was[j].key), p.value(was[j].value))
      ensures var was := old(slots[..]);
              forall j :: 0 <= j < |was| && was[j].Full? && !p.dies(was[j].key, was[j].value) ==>
                exists i :: 0 <= i < slots.Length && slots[i] == Full(p.key(was[j].key), p.value(was[j].value))
    {
      hide Survivors, Stable;
      var i := 0;
      while i < slots.Length
        invariant 0 <= i <= slots.Length
        invariant Survivors(p, slots[..]) == old(Survivors(p, slots[..]))
        invariant AllSettled(p, slots[..i])
        invariant forall k :: 0 <= k < slots.Length ==> Stable(p, slots[k])
      {
        ghost var before := slots[..];
        assert forall k :: 0 <= k < slots.Length ==> Stable(p, before[k]);
        if slots[i].Full? {
          var key := slots[i].key;
          if p.dies(key, slots[i].value) {
            slots[i] := Free;
            DropStep(p, before, i, slots[..]);
          } else {
            var key' := p.key(key);
            slots[i] := Full(key, p.value(slots[i].value));
            ghost var j := i;
            if key' != key {
              j := RekeyFront(i, key');
            }
            MoveStep(p, before, i, j, slots[..]);
          }
        }
        assert slots[..i + 1] == slots[..][..i + 1];
        i := i + 1;
      }
      assert slots[..] == slots[..i];
      SettledEntries(p, slots[..]);
      SweptSlots(p, old(slots[..]), slots[..]);
    }
  }

  lemma {:induction false} EntryFrom<K, V>(slots: seq<Slot<K, V>>, k: K, v: V)
    ensures (k, v) in Entries(slots) <==> Full(k, v) in slots
    decreases |slots|
  {
    if slots != [] {
      var n := |slots| - 1;
      EntryFrom(slots[..n], k, v);
      assert slots == slots[..n] + [slots[n]];
    }
  }

  /** Slots whose entries are the survivors of others hold what live entries become, and nothing else. */
  lemma SweptSlots<K, V>(p: Policy<K, V>, was: seq<Slot<K, V>>, now: seq<Slot<K, V>>)
    requires Entries(now) == Survivors(p, was)
    ensures forall i :: 0 <= i < |now| && now[i].Full? ==>
              exists j :: 0 <= j < |was| && was[j].Full? && !p.dies(was[j].key, was[j].value)
                          && now[i] == Full(p.key(was[j].key), p.value(was[j].value))
    ensures forall j :: 0 <= j < |was| && was[j].Full? && !p.dies(was[j].key, was[j].value) ==>
              exists i :: 0 <= i < |now| && now[i] == Full(p.key(was[j].key), p.value(was[j].value))
  {
    hide Entries, Survivors;
    forall i | 0 <= i < |now| && now[i].Full?
      ensures exists j :: 0 <= j < |was| && was[j].Full? && !p.dies(was[j].key, was[j].value)
                          && now[i] == Full(p.key(was[j].key), p.value(was[j].value))
    {
      EntryFrom(now, now[i].key, now[i].value);
      SurvivorFrom(p, was, (now[i].key, now[i].value));
      var j :| 0 <= j < |was| && Becomes(p, was[j], (now[i].key, now[i].value));
    }
    forall j | 0 <= j < |was| && was[j].Full? && !p.dies(was[j].key, was[j].value)
      ensures exists i :: 0 <= i < |now| && now[i] == Full(p.key(was[j].key), p.value(was[j].value))
    {
      var k, v := p.key(was[j].key), p.value(was[j].value);
      assert Becomes(p, was[j], (k, v));
      SurvivorFrom(p, was, (k, v));
      EntryFrom(now, k, v);
    }
  }

  ghost predicate AllSettled<K, V>(p: Policy<K, V>, slots: seq<Slot<K, V>>) {
    forall i :: 0 <= i < |slots| ==> Settled(p, slots[i])
  }

  lemma DropStep<K, V>(p: Policy<K, V>, before: seq<Slot<K, V>>, i: nat, after: seq<Slot<K, V>>)
    requires i < |before| && before[i].Full? && p.dies(before[i].key, before[i].value)
    requires after == before[i := Free] && AllSettled(p, before[..i])
    ensures Survivors(p, after) == Survivors(p, before) && AllSettled(p, after[..i + 1]) && Stable(p, after[i])
  {
    DropEntry(p, before, i);
    SettledUpTo(p, before, i, i, after);
  }

  lemma DropEntry<K, V>(p: Policy<K, V>, slots: seq<Slot<K, V>>, i: nat)
    requires i < |slots|
    ensures Survivors(p, slots[i := Free]) + SurvivorIn(p, slots[i]) == Survivors(p, slots)
    ensures slots[i].Full? && p.dies(slots[i].key, slots[i].value) ==> Survivors(p, slots[i := Free]) == Survivors(p, slots)
  {
    hide Survivors;
    SurvivorsUpdate(p, slots, i, Free);
    AddNothing(Survivors(p, slots), SurvivorIn(p, Free));
    if slots[i].Full? && p.dies(slots[i].key, slots[i].value) {
      AddNothing(Survivors(p, slots[i := Free]), SurvivorIn(p, slots[i]));
    }
  }

  lemma FillSlot<K, V>(p: Policy<K, V>, slots: seq<Slot<K, V>>, j: nat, s: Slot<K, V>)
    requires j < |slots| && slots[j].Free?
    ensures Survivors(p, slots[j := s]) == Survivors(p, slots) + SurvivorIn(p, s)
  {
    hide Survivors;
    SurvivorsUpdate(p, slots, j, s);
    AddNothing(Survivors(p, slots[j := s]), SurvivorIn(p, slots[j]));
  }

  /** Changing slot `i` and perhaps a free slot, leaving both settled, extends the settled part past `i`. */
  lemma SettledUpTo<K, V>(p: Policy<K, V>, before: seq<Slot<K, V>>, i: nat, j: nat, after: seq<Slot<K, V>>)
    requires i < |before| && j < |before| && |after| == |before| && AllSettled(p, before[..i])
    requires forall k :: 0 <= k < |before| && k != i && k != j ==> after[k] == before[k]
    requires Settled(p, after[i]) && Settled(p, after[j])
    ensures AllSettled(p, after[..i + 1])
  {
    hide Settled;
    forall k | 0 <= k <= i ensures Settled(p, after[k]) {
      if k != i && k != j {
        assert before[..i][k] == before[k];
      }
    }
  }

  /** A live entry, updated and put back in its own slot or in a free one. */
  lemma MoveStep<K, V>(p: Policy<K, V>, before: seq<Slot<K, V>>, i: nat, j: nat, after: seq<Slot<K, V>>)
    requires i < |before| && j < |before| && AllSettled(p, before[..i]) && Stable(p, before[i])
    requires before[i].Full? && !p.dies(before[i].key, before[i].value)
    requires before[i := Free][j].Free?
    requires after == before[i := Free][j := Full(p.key(before[i].key), p.value(before[i].value))]
    ensures Survivors(p, after) == Survivors(p, before) && AllSettled(p, after[..i + 1]) && Stable(p, after[i]) && Stable(p, after[j])
  {
    hide Survivors, AllSettled;
    var moved := Full(p.key(before[i].key), p.value(before[i].value));
    assert SurvivorIn(p, moved) == SurvivorIn(p, before[i]) && Settled(p, moved);
    hide SurvivorIn, Stable, Settled;
    DropEntry(p, before, i);
    FillSlot(p, before[i := Free], j, moved);
    FreeIsSettled(p);
    SettledUpTo(p, before, i, j, after);
  }

  lemma FreeIsSettled<K, V>(p: Policy<K, V>)
    ensures Settled(p, Free)
  {
  }

  // ---------------------------------------------------------------------------
  // The result as a map
  // ---------------------------------------------------------------------------

  /** No key has two entries. */
  ghost predicate UniqueKeys<K, V>(entries: multiset<(K, V)>) {
    forall a, b :: a in entries && b in entries && a.0 == b.0 ==> a == b && entries[a] == 1
  }

  predicate Lives<K, V>(p: Policy<K, V>, s: Slot<K, V>) {
    s.Full? && !p.dies(s.key, s.value)
  }

  /** Different live entries are given different keys. */
  ghost predicate InjectiveOnLive<K, V>(p: Policy<K, V>, slots: seq<Slot<K, V>>) {
    forall i, j :: 0 <= i < j < |slots| && Lives(p, slots[i]) && Lives(p, slots[j])
                   ==> p.key(slots[i].key) != p.key(slots[j].key)
  }

  /** A live entry of the slot becomes `e`. */
  ghost predicate Becomes<K, V>(p: Policy<K, V>, s: Slot<K, V>, e: (K, V)) {
    s.Full? && !p.dies(s.key, s.value) && e == (p.key(s.key), p.value(s.value))
  }

  lemma {:induction false} SurvivorFrom<K, V>(p: Policy<K, V>, slots: seq<Slot<K, V>>, e: (K, V))
    ensures e in Survivors(p, slots) <==> exists i :: 0 <= i < |slots| && Becomes(p, slots[i], e)
    decreases |slots|
  {
    if slots != [] {
      var n := |slots| - 1;
      var front := slots[..n];
      SurvivorFrom(p, front, e);
      assert e in SurvivorIn(p, slots[n]) <==> Becomes(p, slots[n], e);
      hide Becomes, SurvivorIn;
      assert forall i :: 0 <= i < n ==> front[i] == slots[i];
    }
  }

  lemma UniqueAdd<K, V>(before: multiset<(K, V)>, e: (K, V))
    ensures UniqueKeys(before + multiset{e}) <==> UniqueKeys(before) && forall a :: a in before ==> a.0 != e.0
  {
    var all := before + multiset{e};
    assert forall a :: a in all <==> a in before || a == e;
    if UniqueKeys(all) {
      assert all[e] == before[e] + 1;
      assert forall a :: a in before ==> a in all && before[a] <= all[a];
    }
    if UniqueKeys(before) && forall a :: a in before ==> a.0 != e.0 {
      assert e !in before;
      assert forall a :: a != e ==> all[a] == before[a];
    }
  }

  lemma InjectiveAdd<K, V>(p: Policy<K, V>, slots: seq<Slot<K, V>>)
    requires slots != []
    ensures var front, s := slots[..|slots| - 1], slots[|slots| - 1];
            InjectiveOnLive(p, slots) <==>
              InjectiveOnLive(p, front)
              && (Lives(p, s) ==> forall i :: 0 <= i < |front| && Lives(p, front[i]) ==> p.key(front[i].key) != p.key(s.key))
  {
    hide Lives;
    var front := slots[..|slots| - 1];
    assert forall i :: 0 <= i < |front| ==> front[i] == slots[i];
  }

  /** The keys in use after a sweep are those given to live entries. */
  lemma KeyInUse<K, V>(p: Policy<K, V>, slots: seq<Slot<K, V>>, k: K)
    ensures (exists a :: a in Survivors(p, slots) && a.0 == k)
       <==> exists i :: 0 <= i < |slots| && Lives(p, slots[i]) && p.key(slots[i].key) == k
  {
    hide Survivors;
    if a :| a in Survivors(p, slots) && a.0 == k {
      SurvivorFrom(p, slots, a);
      var i :| 0 <= i < |slots| && Becomes(p, slots[i], a);
      assert Lives(p, slots[i]);
    }
    if i :| 0 <= i < |slots| && Lives(p, slots[i]) && p.key(slots[i].key) == k {
      var a := (k, p.value(slots[i].value));
      assert Becomes(p, slots[i], a);
      SurvivorFrom(p, slots, a);
    }
  }

  /**
   The swept table is a map again exactly when forwarding is injective on the keys of its
   live entries.
   */
  lemma {:induction false} UniqueIffInjective<K, V>(p: Policy<K, V>, slots: seq<Slot<K, V>>)
    ensures UniqueKeys(Survivors(p, slots)) <==> InjectiveOnLive(p, slots)
    decreases |slots|
  {
    if slots != [] {
      var front, s := slots[..|slots| - 1], slots[|slots| - 1];
      var before := Survivors(p, front);
      assert Survivors(p, slots) == before + SurvivorIn(p, s);
      UniqueIffInjective(p, front);
      InjectiveAdd(p, slots);
      hide Survivors, UniqueKeys, InjectiveOnLive;
      if Lives(p, s) {
        UniqueAdd(before, (p.key(s.key), p.value(s.value)));
        KeyInUse(p, front, p.key(s.key));
      } else {
        AddNothing(before, SurvivorIn(p, s));
      }
    }
  }
}
