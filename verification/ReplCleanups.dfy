/**
 The debugger's scoped properties: `setUntilRepl` and `preReplCleanups` of
 `examples/jorendb.js`, and the stepping commands that use them. Setting a property until
 the next prompt pushes a closure that restores it; before each prompt the closures run,
 last pushed first.
 */
module ReplCleanups {

  /** A property of an object; a property never set reads as `undefined`, here 0. */
  type Place = (int, string)

  type Value = int

  const UNDEFINED: Value := 0

  type Store = map<Place, Value>

  function Read(store: Store, p: Place): Value {
    if p in store then store[p] else UNDEFINED
  }

  /** A closure that stores the saved value back. */
  datatype Cleanup = Cleanup(place: Place, saved: Value)

  /** The value the first-pushed closure for a place restores, or the fallback if there is none. */
  ghost function FirstSaved(cleanups: seq<Cleanup>, p: Place, fallback: Value): Value {
    if cleanups == [] then fallback
    else if cleanups[0].place == p then cleanups[0].saved
    else FirstSaved(cleanups[1..], p, fallback)
  }

  ghost predicate HasCleanup(cleanups: seq<Cleanup>, p: Place) {
    exists i :: 0 <= i < |cleanups| && cleanups[i].place == p
  }

  lemma {:induction false} FirstSavedAppend(cleanups: seq<Cleanup>, c: Cleanup, p: Place, fallback: Value)
    ensures FirstSaved(cleanups + [c], p, fallback)
         == FirstSaved(cleanups, p, if c.place == p then c.saved else fallback)
    decreases |cleanups|
  {
    if cleanups == [] {
      assert cleanups + [c] == [c];
    } else {
      FirstSavedAppend(cleanups[1..], c, p, fallback);
      assert (cleanups + [c])[1..] == cleanups[1..] + [c];
    }
  }

  /** The first-pushed closure of a place decides, whatever was pushed after it. */
  lemma {:induction false} FirstSavedAt(cleanups: seq<Cleanup>, i: nat, fallback: Value)
    requires i < |cleanups| && forall j :: 0 <= j < i ==> cleanups[j].place != cleanups[i].place
    ensures FirstSaved(cleanups, cleanups[i].place, fallback) == cleanups[i].saved
  {
    if i > 0 {
      FirstSavedAt(cleanups[1..], i - 1, fallback);
    }
  }

  /** What a place would read once all closures had run. */
  ghost function Drained(store: Store, cleanups: seq<Cleanup>, p: Place): Value {
    FirstSaved(cleanups, p, Read(store, p))
  }

  lemma SetKeepsDrained(store: Store, cleanups: seq<Cleanup>, at: Place, value: Value, p: Place)
    ensures Drained(store[at := value], cleanups + [Cleanup(at, Read(store, at))], p) == Drained(store, cleanups, p)
  {
    FirstSavedAppend(cleanups, Cleanup(at, Read(store, at)), p, Read(store[at := value], p));
  }

  /** What happens between prompts: scoped sets, and other writes to any property. */
  datatype Action = Set(p: Place, v: Value) | Write(p: Place, v: Value)

  datatype State = State(store: Store, cleanups: seq<Cleanup>)

  ghost function Step(s: State, a: Action): State {
    match a
    case Set(p, v) => State(s.store[p := v], s.cleanups + [Cleanup(p, Read(s.store, p))])
    case Write(p, v) => State(s.store[p := v], s.cleanups)
  }

  /** A stack frame, as far as stepping looks at it; `NoFrame` is null. */
  datatype Frame = NoFrame | Frame(id: int, reportedPop: bool, older: Frame, hasScript: bool)

  datatype Kind = Kind(step: bool, finish: bool)

  class Debugger {
    const dbg: int
    var store: Store
    var replCleanups: seq<Cleanup>
    var topFrame: Frame
    var focusedFrame: Frame

    /** Sets a property, to be restored before the next prompt. */
    method SetUntilRepl(obj: int, prop: string, value: Value)
      modifies this`store, this`replCleanups
      ensures State(store, replCleanups) == Step(old(State(store, replCleanups)), Set((obj, prop), value))
      ensures store == old(store)[(obj, prop) := value]
      ensures replCleanups == old(replCleanups) + [Cleanup((obj, prop), old(Read(store, (obj, prop))))]
      ensures forall p :: Drained(store, replCleanups, p) == Drained(old(store), old(replCleanups), p)
    {
      var saved := Read(store, (obj, prop));
      store := store[(obj, prop) := value];
      replCleanups := replCleanups + [Cleanup((obj, prop), saved)];
      forall p ensures Drained(store, replCleanups, p) == Drained(old(store), old(replCleanups), p) {
        SetKeepsDrained(old(store), old(replCleanups), (obj, prop), value, p);
      }
    }

    /** Runs the closures. Every place reads as its first-pushed closure saved it, and no other place is written. */
    method PreReplCleanups()
      modifies this`store, this`replCleanups
      ensures replCleanups == []
      ensures forall p :: Read(store, p) == Drained(old(store), old(replCleanups), p)
      ensures forall p :: !HasCleanup(old(replCleanups), p) ==> (p in store <==> p in old(store))
      ensures var cleanups := old(replCleanups);
              forall i :: 0 <= i < |cleanups| && (forall j :: 0 <= j < i ==> cleanups[j].place != cleanups[i].place)
                          ==> Read(store, cleanups[i].place) == cleanups[i].saved
    {
      while |replCleanups| > 0
        invariant replCleanups <= old(replCleanups)
        invariant forall p :: Drained(store, replCleanups, p) == Drained(old(store), old(replCleanups), p)
        invariant forall p :: !HasCleanup(old(replCleanups), p) ==> (p in store <==> p in old(store))
        decreases |replCleanups|
      {
        ghost var before, store0 := replCleanups, store;
        var c := replCleanups[|replCleanups| - 1];
        replCleanups := replCleanups[..|replCleanups| - 1];
        store := store[c.place := c.saved];
        assert before == replCleanups + [c];
        assert old(replCleanups)[|replCleanups|] == c;
        forall p ensures Drained(store, replCleanups, p) == Drained(store0, before, p) {
          FirstSavedAppend(replCleanups, c, p, Read(store0, p));
        }
      }
      ghost var cleanups := old(replCleanups);
      forall i | 0 <= i < |cleanups| && forall j :: 0 <= j < i ==> cleanups[j].place != cleanups[i].place
        ensures Read(store, cleanups[i].place) == cleanups[i].saved
      {
        FirstSavedAt(cleanups, i, Read(old(store), cleanups[i].place));
        assert Drained(store, replCleanups, cleanups[i].place) == Drained(old(store), cleanups, cleanups[i].place);
      }
    }

    /**
     Arranges the callbacks for one step: which frame is watched, and what is set on it and
     on the debugger. Running the closures would undo all of it.
     */
    method DoStepOrNext(kind: Kind, stepEntered: Value, stepStepped: Value, stepPopped: Value)
      requires topFrame.Frame?
      modifies this`store, this`replCleanups
      ensures forall p :: Drained(store, replCleanups, p) == Drained(old(store), old(replCleanups), p)
      ensures var entered := if kind.step then old(store)[(dbg, "onEnterFrame") := stepEntered] else old(store);
              var watched := if topFrame.reportedPop then topFrame.older else topFrame;
              store == if watched.NoFrame? || !watched.hasScript then entered
                       else if kind.finish then entered[(watched.id, "onPop") := stepPopped]
                       else entered[(watched.id, "onStep") := stepStepped][(watched.id, "onPop") := stepPopped]
    {
      hide Drained;
      var startFrame := topFrame;
      if kind.step {
        SetUntilRepl(dbg, "onEnterFrame", stepEntered);
      }
      var stepFrame := if startFrame.reportedPop then startFrame.older else startFrame;
      if stepFrame.NoFrame? || !stepFrame.hasScript {
        stepFrame := NoFrame;
      }
      if stepFrame.Frame? {
        if !kind.finish {
          SetUntilRepl(stepFrame.id, "onStep", stepStepped);
        }
        SetUntilRepl(stepFrame.id, "onPop", stepPopped);
      }
    }

    /**
     The pop of a frame that `finish` waits for: while the frame is still valid every
     callback is taken back, and one is set on the frame returned to. The outermost frame
     has none; setting a callback on null then throws, after everything was taken back.
     */
    method FinishPopped(popped: Frame, stepStepped: Value) returns (threw: bool)
      requires popped.Frame?
      modifies this
      ensures topFrame == focusedFrame == popped.(reportedPop := true)
      ensures threw == popped.older.NoFrame?
      ensures threw ==> replCleanups == [] && forall p :: Read(store, p) == Drained(old(store), old(replCleanups), p)
      ensures !threw ==>
                && (forall p :: HasCleanup(replCleanups, p) <==> p == (popped.older.id, "onStep"))
                && (forall p :: Read(store, p)
                      == if p == (popped.older.id, "onStep") then stepStepped else Drained(old(store), old(replCleanups), p))
      ensures forall p :: Drained(store, replCleanups, p) == Drained(old(store), old(replCleanups), p)
    {
      topFrame := popped.(reportedPop := true);
      focusedFrame := topFrame;
      PreReplCleanups();
      if popped.older.NoFrame? {
        return true;
      }
      SetUntilRepl(popped.older.id, "onStep", stepStepped);
      assert replCleanups[0].place == (popped.older.id, "onStep");
      return false;
    }
  }

  // ---------------------------------------------------------------------------
  // Whole sessions between two prompts
  // ---------------------------------------------------------------------------

  ghost function Session(s: State, actions: seq<Action>): State {
    if actions == [] then s else Step(Session(s, actions[..|actions| - 1]), actions[|actions| - 1])
  }

  ghost predicate SetsPlace(actions: seq<Action>, p: Place) {
    exists i :: 0 <= i < |actions| && actions[i].Set? && actions[i].p == p
  }

  lemma HasCleanupAppend(cleanups: seq<Cleanup>, c: Cleanup, p: Place)
    ensures HasCleanup(cleanups + [c], p) <==> HasCleanup(cleanups, p) || c.place == p
  {
    var all := cleanups + [c];
    assert all[|cleanups|] == c;
    assert forall i :: 0 <= i < |cleanups| ==> all[i] == cleanups[i];
  }

  lemma SetsPlaceAppend(actions: seq<Action>, a: Action, p: Place)
    ensures SetsPlace(actions + [a], p) <==> SetsPlace(actions, p) || (a.Set? && a.p == p)
  {
    var all := actions + [a];
    assert all[|actions|] == a;
    assert forall i :: 0 <= i < |actions| ==> all[i] == actions[i];
  }

  /** A place has a closure exactly when it was set since the closures last ran. */
  lemma {:induction false} CleanupIffSet(store: Store, actions: seq<Action>, p: Place)
    ensures HasCleanup(Session(State(store, []), actions).cleanups, p) <==> SetsPlace(actions, p)
    decreases |actions|
  {
    if actions != [] {
      var front, a := actions[..|actions| - 1], actions[|actions| - 1];
      var s := Session(State(store, []), front);
      CleanupIffSet(store, front, p);
      assert actions == front + [a];
      SetsPlaceAppend(front, a, p);
      if a.Set? {
        HasCleanupAppend(s.cleanups, Cleanup(a.p, Read(s.store, a.p)), p);
      }
    }
  }

  lemma HasCleanupFirst(cleanups: seq<Cleanup>, p: Place)
    requires cleanups != []
    ensures HasCleanup(cleanups, p) <==> cleanups[0].place == p || HasCleanup(cleanups[1..], p)
  {
    var rest := cleanups[1..];
    assert forall i :: 0 <= i < |rest| ==> rest[i] == cleanups[i + 1];
    if HasCleanup(cleanups, p) {
      var i :| 0 <= i < |cleanups| && cleanups[i].place == p;
      if i > 0 {
        assert rest[i - 1].place == p;
      }
    }
  }

  lemma {:induction false} NoCleanupReads(cleanups: seq<Cleanup>, p: Place, fallback: Value)
    ensures !HasCleanup(cleanups, p) ==> FirstSaved(cleanups, p, fallback) == fallback
    ensures HasCleanup(cleanups, p) ==> forall other :: FirstSaved(cleanups, p, other) == FirstSaved(cleanups, p, fallback)
    decreases |cleanups|
  {
    if cleanups != [] {
      NoCleanupReads(cleanups[1..], p, fallback);
      HasCleanupFirst(cleanups, p);
    }
  }

  /** A place never set since the last prompt keeps whatever was last written to it. */
  lemma UnsetPlaceKeepsLastWrite(store: Store, actions: seq<Action>, p: Place)
    requires !SetsPlace(actions, p)
    ensures var s := Session(State(store, []), actions); Drained(s.store, s.cleanups, p) == Read(s.store, p)
  {
    var s := Session(State(store, []), actions);
    CleanupIffSet(store, actions, p);
    NoCleanupReads(s.cleanups, p, Read(s.store, p));
  }

  /**
   Whatever sets and other writes follow, running the closures restores a place to its value
   just before it was first set since the closures last ran.
   */
  lemma {:induction false} FirstSetDecides(store: Store, actions: seq<Action>, i: nat)
    requires i < |actions| && actions[i].Set? && !SetsPlace(actions[..i], actions[i].p)
    ensures var s, p := Session(State(store, []), actions), actions[i].p;
            Drained(s.store, s.cleanups, p) == Read(Session(State(store, []), actions[..i]).store, p)
    decreases |actions|
  {
    var front, a, p := actions[..|actions| - 1], actions[|actions| - 1], actions[i].p;
    var s := Session(State(store, []), front);
    if i == |actions| - 1 {
      UnsetPlaceKeepsLastWrite(store, front, p);
      SetKeepsDrained(s.store, s.cleanups, p, a.v, p);
    } else {
      assert front[..i] == actions[..i] && front[i] == actions[i];
      FirstSetDecides(store, front, i);
      match a
      case Set(at, v) =>
        SetKeepsDrained(s.store, s.cleanups, at, v, p);
      case Write(at, v) =>
        assert front[i].Set? && SetsPlace(front, p);
        CleanupIffSet(store, front, p);
        NoCleanupReads(s.cleanups, p, Read(s.store, p));
    }
  }
}
