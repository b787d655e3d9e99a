/**
 The weak cache over a hash map of `public/GCHashTable.h`: while its barrier is up it
 answers as if all dying entries were gone, though they are only removed when met.
 */
module WeakCaches {

  datatype Option<T> = None | Some(value: T)

  ghost function Get<K, V>(m: map<K, V>, k: K): Option<V> {
    if k in m then Some(m[k]) else None
  }

  /** The entries that are not about to be finalized. */
  ghost function Live<K, V>(m: map<K, V>, dies: (K, V) -> bool): map<K, V> {
    map k | k in m && !dies(k, m[k]) :: m[k]
  }

  ghost function LiveEntries<K, V>(s: seq<(K, V)>, dies: (K, V) -> bool): seq<(K, V)> {
    if s == [] then []
    else (if dies(s[0].0, s[0].1) then [] else [s[0]]) + LiveEntries(s[1..], dies)
  }

  /** An enumeration of a map: every entry, once. */
  ghost predicate Enumerates<K(!new), V(!new)>(s: seq<(K, V)>, m: map<K, V>) {
    && (forall i, j :: 0 <= i < j < |s| ==> s[i].0 != s[j].0)
    && (forall e :: e in s <==> e.0 in m && m[e.0] == e.1)
  }

  /** A range over the map's entries in the table's order, which skips dying ones. */
  class Range<K(!new), V(!new)> {
    const dies: (K, V) -> bool
    var range: seq<(K, V)>

    /** The cursor is never on a dying entry. */
    ghost predicate Valid()
      reads this
    {
      range == [] || !dies(range[0].0, range[0].1)
    }

    ghost function Remaining(): seq<(K, V)>
      reads this
    {
      LiveEntries(range, dies)
    }

    constructor (range: seq<(K, V)>, dies: (K, V) -> bool)
      ensures Valid() && Remaining() == LiveEntries(range, dies) && this.dies == dies
    {
      this.dies, this.range := dies, range;
      new;
      Settle();
    }

    method Settle()
      modifies this
      ensures Valid() && Remaining() == old(Remaining())
    {
      while range != [] && dies(range[0].0, range[0].1)
        invariant Remaining() == old(Remaining())
        decreases |range|
      {
        range := range[1..];
      }
    }

    predicate Empty()
      reads this
    {
      range == []
    }

    lemma EmptyMeansDone()
      requires Valid()
      ensures Empty() <==> Remaining() == []
    {
    }

    method Front() returns (e: (K, V))
      requires Valid() && !Empty()
      ensures Remaining() != [] && e == Remaining()[0]
    {
      e := range[0];
    }

    method PopFront()
      requires Valid() && !Empty()
      modifies this
      ensures Valid() && Remaining() == old(Remaining())[1..]
    {
      range := range[1..];
      Settle();
    }
  }

  /** Behind the barrier, looking a key up drops its entry when that is dying. */
  ghost function Touch<K, V>(m: map<K, V>, k: K, dies: (K, V) -> bool): map<K, V> {
    if k in m && dies(k, m[k]) then m - {k} else m
  }

  /** What `lookupForAdd` found. */
  datatype AddPtr<K, V> = AddPtr(key: K, entry: Option<V>)

  class WeakCache<K(==, !new), V(!new)> {
    const dies: (K, V) -> bool
    var entries: map<K, V>
    var needsBarrier: bool

    /** The map the cache answers for. */
    ghost function Answers(): map<K, V>
      reads this
    {
      if needsBarrier then Live(entries, dies) else entries
    }

    constructor (dies: (K, V) -> bool)
      ensures entries == map[] && !needsBarrier && this.dies == dies
    {
      this.dies, entries, needsBarrier := dies, map[], false;
    }

    method SetNeedsIncrementalBarrier(needs: bool)
      requires needsBarrier != needs
      modifies this`needsBarrier
      ensures needsBarrier == needs
    {
      needsBarrier := needs;
    }

    /** Looks a key up, dropping its entry when that is dying and the barrier is up. */
    method Lookup(k: K) returns (r: Option<V>)
      modifies this`entries
      ensures r == Get(Answers(), k) && Answers() == old(Answers())
      ensures r == if k !in old(entries) || (needsBarrier && dies(k, old(entries)[k])) then None else Some(old(entries)[k])
      ensures entries == if needsBarrier && k in old(entries) && dies(k, old(entries)[k]) then old(entries) - {k} else old(entries)
    {
      if k !in entries {
        return None;
      }
      if needsBarrier && dies(k, entries[k]) {
        ghost var before := entries;
        entries := entries - {k};
        DroppingDyingKeepsLive(before, k, dies);
        return None;
      }
      return Some(entries[k]);
    }

    method Has(k: K) returns (found: bool)
      modifies this`entries
      ensures found <==> k in Answers()
      ensures found <==> k in old(entries) && !(needsBarrier && dies(k, old(entries)[k]))
      ensures Answers() == old(Answers())
      ensures entries == if needsBarrier && k in old(entries) && dies(k, old(entries)[k]) then old(entries) - {k} else old(entries)
    {
      var r := Lookup(k);
      found := r.Some?;
    }

    /** After this, the key's entry is in the map exactly when it was found. */
    method LookupForAdd(k: K) returns (p: AddPtr<K, V>)
      modifies this`entries
      ensures p == AddPtr(k, Get(Answers(), k)) && p.entry == Get(entries, k) && Answers() == old(Answers())
      ensures p.entry == if k !in old(entries) || (needsBarrier && dies(k, old(entries)[k])) then None else Some(old(entries)[k])
      ensures entries == if needsBarrier && k in old(entries) && dies(k, old(entries)[k]) then old(entries) - {k} else old(entries)
    {
      if k in entries && needsBarrier && dies(k, entries[k]) {
        ghost var before := entries;
        entries := entries - {k};
        DroppingDyingKeepsLive(before, k, dies);
      }
      return AddPtr(k, if k in entries then Some(entries[k]) else None);
    }

    method Add(p: AddPtr<K, V>, v: V)
      requires p.entry == None && p.key !in entries
      modifies this`entries
      ensures entries == old(entries)[p.key := v]
      ensures Answers() == if needsBarrier && dies(p.key, v) then old(Answers()) else old(Answers())[p.key := v]
    {
      entries := entries[p.key := v];
    }

    method Remove(k: K)
      modifies this`entries
      ensures entries == old(entries) - {k} && Answers() == old(Answers()) - {k}
    {
      var p := Lookup(k);
      if p.Some? {
        entries := entries - {k};
      }
    }

    /** A range over the entries, in whatever order the table holds them. */
    method All() returns (r: Range<K, V>, ghost order: seq<(K, V)>)
      ensures fresh(r) && r.Valid() && r.dies == dies
      ensures Enumerates(order, entries) && r.Remaining() == LiveEntries(order, dies)
    {
      var table: seq<(K, V)> := [];
      var todo := entries.Keys;
      while todo != {}
        invariant todo <= entries.Keys
        invariant Enumerates(table, map k | k in entries && k !in todo :: entries[k])
        decreases todo
      {
        var k :| k in todo;
        table := table + [(k, entries[k])];
        todo := todo - {k};
      }
      assert (map k | k in entries && k !in todo :: entries[k]) == entries;
      order := table;
      r := new Range(table, dies);
    }

    /** One operation behind the barrier, by the cache's own methods. */
    method Perform(op: Op<K, V>) returns (a: Answer<K, V>)
      requires needsBarrier
      modifies this`entries
      ensures (entries, a) == CacheStep(old(entries), op, dies)
      ensures op.Remove? ==> entries == old(entries) - {op.k}
      ensures op.AddIfAbsent? ==>
                entries == if op.k in old(entries) && !dies(op.k, old(entries)[op.k]) then old(entries) else old(entries)[op.k := op.v]
    {
      match op
      case Lookup(k) =>
        var r := Lookup(k);
        TouchKeepsLive(old(entries), k, dies);
        a := Found(r);
      case AddIfAbsent(k, v) =>
        var p := LookupForAdd(k);
        if p.entry == None {
          Add(p, v);
        }
        a := Found(p.entry);
      case Remove(k) =>
        Remove(k);
        a := Done;
      case Enumerate =>
        var listed := ListAll();
        a := Listed(listed);
    }

    /** What iterating over a range lists: the live entries, each once. */
    method ListAll() returns (listed: map<K, V>)
      ensures listed == map k | k in entries && !dies(k, entries[k]) :: entries[k]
    {
      var r, order := All();
      RangeEnumeratesLive(order, entries, dies);
      listed := map[];
      ghost var n := 0;
      while !r.Empty()
        invariant r.Valid() && n <= |LiveEntries(order, dies)| && r.Remaining() == LiveEntries(order, dies)[n..]
        invariant Enumerates(LiveEntries(order, dies)[..n], listed)
        decreases |r.Remaining()|
      {
        r.EmptyMeansDone();
        var e := r.Front();
        r.PopFront();
        EnumeratesMore(LiveEntries(order, dies), n, listed);
        listed := listed[e.0 := e.1];
        n := n + 1;
      }
      r.EmptyMeansDone();
      assert LiveEntries(order, dies)[..n] == LiveEntries(order, dies);
      SameEnumeration(LiveEntries(order, dies), listed, Live(entries, dies));
    }

    /** Drops the dying entries one by one; returns the number of entries before. */
    method Sweep() returns (steps: nat)
      modifies this`entries
      ensures entries == Live(old(entries), dies) && steps == |old(entries)|
      ensures entries == map k | k in old(entries) && !dies(k, old(entries)[k]) :: old(entries)[k]
    {
      steps := |entries|;
      var todo := entries.Keys;
      while todo != {}
        invariant todo <= entries.Keys <= old(entries).Keys
        invariant forall k :: k in entries ==> entries[k] == old(entries)[k]
        invariant forall k :: k in entries && k !in todo ==> !dies(k, entries[k])
        invariant forall k :: k in old(entries) && !dies(k, old(entries)[k]) ==> k in entries
        decreases todo
      {
        var k :| k in todo;
        if dies(k, entries[k]) {
          entries := entries - {k};
        }
        todo := todo - {k};
      }
    }
  }

  lemma DroppingDyingKeepsLive<K, V>(m: map<K, V>, k: K, dies: (K, V) -> bool)
    requires k in m && dies(k, m[k])
    ensures Live(m - {k}, dies) == Live(m, dies)
  {
  }

  // ---------------------------------------------------------------------------
  // Whole runs behind the barrier
  // ---------------------------------------------------------------------------

  /** Operations allowed while the barrier is up; `AddIfAbsent` is `lookupForAdd` and then `add` if nothing was found. */
  datatype Op<K, V> = Lookup(k: K) | AddIfAbsent(k: K, v: V) | Remove(k: K) | Enumerate

  datatype Answer<K, V> = Found(entry: Option<V>) | Done | Listed(entries: map<K, V>)

  ghost function CacheStep<K, V>(m: map<K, V>, op: Op<K, V>, dies: (K, V) -> bool): (map<K, V>, Answer<K, V>) {
    match op
    case Lookup(k) => var m' := Touch(m, k, dies); (m', Found(Get(m', k)))
    case AddIfAbsent(k, v) =>
      var m' := Touch(m, k, dies);
      (if k in m' then m' else m'[k := v], Found(Get(m', k)))
    case Remove(k) => (m - {k}, Done)
    case Enumerate => (m, Listed(Live(m, dies)))
  }

  /** A plain map without any dying entry. */
  ghost function PlainStep<K, V>(m: map<K, V>, op: Op<K, V>): (map<K, V>, Answer<K, V>) {
    match op
    case Lookup(k) => (m, Found(Get(m, k)))
    case AddIfAbsent(k, v) => (if k in m then m else m[k := v], Found(Get(m, k)))
    case Remove(k) => (m - {k}, Done)
    case Enumerate => (m, Listed(m))
  }

  ghost function CacheRun<K, V>(m: map<K, V>, ops: seq<Op<K, V>>, dies: (K, V) -> bool): (map<K, V>, seq<Answer<K, V>>)
    decreases |ops|
  {
    if ops == [] then (m, [])
    else
      var (m1, a) := CacheStep(m, ops[0], dies);
      var (m2, rest) := CacheRun(m1, ops[1..], dies);
      (m2, [a] + rest)
  }

  ghost function PlainRun<K, V>(m: map<K, V>, ops: seq<Op<K, V>>): (map<K, V>, seq<Answer<K, V>>)
    decreases |ops|
  {
    if ops == [] then (m, [])
    else
      var (m1, a) := PlainStep(m, ops[0]);
      var (m2, rest) := PlainRun(m1, ops[1..]);
      (m2, [a] + rest)
  }

  /** Entries added while the barrier is up are live. */
  ghost predicate AddsLive<K, V>(ops: seq<Op<K, V>>, dies: (K, V) -> bool) {
    forall i :: 0 <= i < |ops| && ops[i].AddIfAbsent? ==> !dies(ops[i].k, ops[i].v)
  }

  lemma TouchKeepsLive<K, V>(m: map<K, V>, k: K, dies: (K, V) -> bool)
    ensures Live(Touch(m, k, dies), dies) == Live(m, dies)
    ensures Get(Touch(m, k, dies), k) == Get(Live(m, dies), k)
  {
  }

  lemma StepSimulates<K, V>(m: map<K, V>, op: Op<K, V>, dies: (K, V) -> bool)
    requires op.AddIfAbsent? ==> !dies(op.k, op.v)
    ensures var (m1, a) := CacheStep(m, op, dies);
            PlainStep(Live(m, dies), op) == (Live(m1, dies), a)
  {
    match op
    case Lookup(k) =>
      TouchKeepsLive(m, k, dies);
    case AddIfAbsent(k, v) =>
      var m' := Touch(m, k, dies);
      TouchKeepsLive(m, k, dies);
      assert k in m' <==> k in Live(m, dies);
      if k !in m' {
        assert Live(m'[k := v], dies) == Live(m', dies)[k := v];
      }
    case Remove(k) =>
      assert Live(m - {k}, dies) == Live(m, dies) - {k};
    case Enumerate =>
  }

  /**
   Behind the barrier, any run of operations gets the answers of a plain map from which all
   dying entries were removed when the barrier was raised, and the sweep in the end leaves
   that very map.
   */
  lemma {:induction false} BarrierHidesDyingEntries<K, V>(m: map<K, V>, ops: seq<Op<K, V>>, dies: (K, V) -> bool)
    requires AddsLive(ops, dies)
    ensures var (m', answers) := CacheRun(m, ops, dies);
            PlainRun(Live(m, dies), ops) == (Live(m', dies), answers)
    decreases |ops|
  {
    if ops != [] {
      StepSimulates(m, ops[0], dies);
      BarrierHidesDyingEntries(CacheStep(m, ops[0], dies).0, ops[1..], dies);
    }
  }

  /** A range over a map's entries, in whatever order, lists exactly the live ones. */
  lemma {:induction false} RangeListsLive<K, V>(s: seq<(K, V)>, dies: (K, V) -> bool, e: (K, V))
    ensures e in LiveEntries(s, dies) <==> e in s && !dies(e.0, e.1)
    decreases |s|
  {
    if s != [] {
      RangeListsLive(s[1..], dies, e);
      assert s == [s[0]] + s[1..];
    }
  }

  lemma {:induction false} LiveEntriesDistinct<K, V>(s: seq<(K, V)>, dies: (K, V) -> bool)
    requires forall i, j :: 0 <= i < j < |s| ==> s[i].0 != s[j].0
    ensures var t := LiveEntries(s, dies); forall i, j :: 0 <= i < j < |t| ==> t[i].0 != t[j].0
    decreases |s|
  {
    if s != [] {
      var t := LiveEntries(s[1..], dies);
      LiveEntriesDistinct(s[1..], dies);
      forall j | 0 <= j < |t| ensures t[j].0 != s[0].0 {
        RangeListsLive(s[1..], dies, t[j]);
        var i :| 0 <= i < |s[1..]| && s[1..][i] == t[j];
        assert s[i + 1] == t[j];
      }
    }
  }

  /** A barriered range over an enumeration of the map enumerates the map without its dying entries. */
  lemma RangeEnumeratesLive<K(!new), V(!new)>(s: seq<(K, V)>, m: map<K, V>, dies: (K, V) -> bool)
    requires Enumerates(s, m)
    ensures Enumerates(LiveEntries(s, dies), Live(m, dies))
  {
    LiveEntriesDistinct(s, dies);
    forall e: (K, V) ensures e in LiveEntries(s, dies) <==> e.0 in Live(m, dies) && Live(m, dies)[e.0] == e.1 {
      RangeListsLive(s, dies, e);
    }
  }

  lemma EnumeratesMore<K(!new), V(!new)>(s: seq<(K, V)>, n: nat, m: map<K, V>)
    requires n < |s| && Enumerates(s[..n], m) && forall i, j :: 0 <= i < j < |s| ==> s[i].0 != s[j].0
    ensures Enumerates(s[..n + 1], m[s[n].0 := s[n].1])
  {
    assert s[..n + 1] == s[..n] + [s[n]];
    forall k | k in m ensures k != s[n].0 {
      assert (k, m[k]) in s[..n];
    }
  }

  lemma SameEnumeration<K(!new), V(!new)>(s: seq<(K, V)>, a: map<K, V>, b: map<K, V>)
    requires Enumerates(s, a) && Enumerates(s, b)
    ensures a == b
  {
    forall k | k in a ensures k in b && b[k] == a[k] {
      assert (k, a[k]) in s;
    }
    forall k | k in b ensures k in a {
      assert (k, b[k]) in s;
    }
  }
}
