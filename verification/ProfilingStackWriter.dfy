/**
 The thread that owns a profiling stack: each method performs its stores one statement at a
 time, and is proved to perform exactly the operation's list of stores, in that order.
 */
module ProfilingStackWriter {
  import opened Words
  import opened ProfilingStacks

  const EMPTY_FRAME: Frame := Frame("", 0, 0, 0, 0, 0)
  const INITIAL_CAPACITY: nat := 128

  function Max(a: nat, b: nat): nat {
    if a < b then b else a
  }

  /** The flags of a label frame: its kind bit, the category pair above the flags, and the caller's flags. */
  function LabelFlags(categoryPair: nat, flags: nat): nat {
    Or(Or(Pow2(IS_LABEL_FRAME), Shl(categoryPair, FLAGS_BITCOUNT, 32)), flags)
  }

  function LabelFrame(labelString: string, dynamicString: nat, sp: nat, categoryPair: nat, flags: nat): Frame {
    Frame(labelString, dynamicString, sp, 0, 0, LabelFlags(categoryPair, flags))
  }

  function SpMarkerFrame(sp: nat, other: nat): Frame {
    Frame("", 0, sp, 0, 0, Or(Pow2(IS_SP_MARKER_FRAME), Shl(other, FLAGS_BITCOUNT, 32)))
  }

  function JsFrame(labelString: string, dynamicString: nat, script: nat, pcOffset: int, realmID: nat, interpreter: nat): Frame {
    Frame(labelString, dynamicString, script, pcOffset, realmID, Or(Shl(interpreter, FLAGS_BITCOUNT, 32), Pow2(IS_JS_FRAME)))
  }

  /** The copy that `operator=` makes: the label shown, not the label stored, is copied. */
  function Assigned(other: Frame, categoryLabel: nat -> string): Frame {
    other.(labelString := Label(other, categoryLabel))
  }

  lemma AssignedShowsSame(other: Frame, categoryLabel: nat -> string)
    ensures ViewOf(Assigned(other, categoryLabel), categoryLabel) == ViewOf(other, categoryLabel)
  {
  }

  /** A category pair and caller's flags that fit their halves of the word and claim no other kind of frame. */
  ghost predicate LabelArguments(categoryPair: nat, flags: nat) {
    categoryPair < Pow2(16) && flags < Pow2(16) && Bit(flags, IS_SP_MARKER_FRAME) == 0 && Bit(flags, IS_JS_FRAME) == 0
  }

  /** The flags decode to what they were made from: kind, category pair and caller's flags. */
  lemma LabelFlagsDecode(categoryPair: nat, flags: nat)
    requires LabelArguments(categoryPair, flags)
    ensures var f := LabelFlags(categoryPair, flags);
            && Bit(f, IS_LABEL_FRAME) == 1 && Bit(f, IS_SP_MARKER_FRAME) == 0 && Bit(f, IS_JS_FRAME) == 0
            && Shr(f, FLAGS_BITCOUNT) == categoryPair
            && And(f, Pow2(16) - 1) == Or(flags, 1)
  {
    FlagPowers();
    SmallPowers();
    hide Pow2, Or, And;
    DivModUnique(categoryPair * Pow2(16), Pow2(32), 0, categoryPair * Pow2(16));
    var high := categoryPair * 65536;
    OrDisjointBelow(high, 1, flags);
    SetBit(flags, 0);
    var low := Or(flags, 1);
    assert low == flags + (1 - flags % 2) && low < 65536;
    DivModUnique(high + low, 65536, categoryPair, low);
    AndLowMask(high + low, 16);
    hide Bit;
    KindBits(categoryPair, flags, low);
  }

  lemma KindBits(c: nat, flags: nat, low: nat)
    requires low == flags + (1 - flags % 2) < 65536
    requires Bit(flags, IS_SP_MARKER_FRAME) == 0 && Bit(flags, IS_JS_FRAME) == 0
    ensures var f := c * 65536 + low;
            Bit(f, IS_LABEL_FRAME) == 1 && Bit(f, IS_SP_MARKER_FRAME) == 0 && Bit(f, IS_JS_FRAME) == 0
  {
    LowBits(flags);
    LowBits(c * 65536 + low);
    hide Bit;
    LowBitsOf(c, low);
    SetLowest(flags, low);
  }

  lemma LowBits(x: nat)
    ensures Bit(x, 0) == x % 2 && Bit(x, 1) == (x / 2) % 2 && Bit(x, 2) == (x / 4) % 2
  {
    SmallPowers();
    hide Pow2;
  }

  lemma SetLowest(x: nat, low: nat)
    requires low == x + (1 - x % 2)
    ensures low % 2 == 1 && low / 2 == x / 2 && low / 4 == x / 4
  {
    assert x / 4 == (x / 2) / 2 && low / 4 == (low / 2) / 2;
  }

  /** The flags as a number: the category pair from bit 16 on, the caller's flags below, bit 0 set. */
  lemma LabelFlagsAre(categoryPair: nat, flags: nat)
    requires LabelArguments(categoryPair, flags)
    ensures var f := LabelFlags(categoryPair, flags);
            && f == categoryPair * 65536 + flags + (1 - flags % 2)
            && f / 65536 == categoryPair && (f / 256) % 2 == (flags / 256) % 2
  {
    LabelFlagsDecode(categoryPair, flags);
    FlagPowers();
    OrOne(flags);
    AndLowMask(LabelFlags(categoryPair, flags), 16);
    hide Pow2, Or, And, LabelFlags, Bit;
    assert LabelFlags(categoryPair, flags) % 65536 == flags + (1 - flags % 2);
    HighAndLow(categoryPair, flags);
  }

  lemma HighAndLow(c: nat, flags: nat)
    requires flags < 65536
    ensures var f := c * 65536 + flags + (1 - flags % 2);
            f / 65536 == c && (f / 256) % 2 == (flags / 256) % 2
  {
    var low, q := flags + (1 - flags % 2), flags / 256;
    EvenSplit(flags, q);
    DivModUnique(c * 65536 + low, 65536, c, low);
    DivModUnique(c * 65536 + low, 256, c * 256 + q, low - q * 256);
    AddMultiple(q, c * 128, 2);
  }

  /** Making the lowest bit 1 stays within the same 256 numbers. */
  lemma EvenSplit(flags: nat, q: nat)
    requires q == flags / 256
    ensures q * 256 <= flags + (1 - flags % 2) < q * 256 + 256
  {
    AddMultiple(flags - q * 256, q * 128, 2);
  }

  /** What a label frame shows. */
  lemma LabelFrameShows(labelString: string, dynamicString: nat, sp: nat, categoryPair: nat, flags: nat, categoryLabel: nat -> string)
    requires LabelArguments(categoryPair, flags)
    ensures ViewOf(LabelFrame(labelString, dynamicString, sp, categoryPair, flags), categoryLabel)
         == NativeView(if (flags / 256) % 2 == 1 then categoryLabel(categoryPair) else labelString, dynamicString, sp,
                       categoryPair * 65536 + flags + (1 - flags % 2))
  {
    LabelFlagsAre(categoryPair, flags);
    LabelFrameIsNative(labelString, dynamicString, sp, categoryPair, flags);
    LabelShown(LabelFrame(labelString, dynamicString, sp, categoryPair, flags), categoryLabel);
    hide LabelArguments, LabelFlags, IsJsFrame, Label;
  }

  /** The flags of marker and JS frames as numbers. */
  lemma KindFlagsAre(categoryPair: nat)
    requires categoryPair < Pow2(16)
    ensures Or(Pow2(IS_SP_MARKER_FRAME), Shl(categoryPair, FLAGS_BITCOUNT, 32)) == categoryPair * 65536 + 2
    ensures Or(Shl(categoryPair, FLAGS_BITCOUNT, 32), Pow2(IS_JS_FRAME)) == categoryPair * 65536 + 4
  {
    FlagPowers();
    SmallPowers();
    hide Pow2, Or;
    DivModUnique(categoryPair * Pow2(16), Pow2(32), 0, categoryPair * Pow2(16));
    OrDisjoint(categoryPair * 65536, 2, 16);
    OrDisjoint(categoryPair * 65536, 4, 16);
  }

  lemma NoCategoryLabel(categoryPair: nat, kind: nat)
    requires kind < 256
    ensures ((categoryPair * 65536 + kind) / 256) % 2 == 0
  {
    DivModUnique(categoryPair * 65536 + kind, 256, categoryPair * 256, kind);
    AddMultiple(0, categoryPair * 128, 2);
  }

  lemma SpMarkerFrameShows(sp: nat, other: nat, categoryLabel: nat -> string)
    requires other < Pow2(16)
    ensures ViewOf(SpMarkerFrame(sp, other), categoryLabel) == NativeView("", 0, sp, other * 65536 + 2)
  {
    KindFlagsAre(other);
    NoCategoryLabel(other, 2);
    KindFrames(other, sp, "", 0, 0, 0, 0);
    LabelShown(SpMarkerFrame(sp, other), categoryLabel);
    hide Pow2, Or, Shl, IsJsFrame, Label;
  }

  lemma JsFrameShows(labelString: string, dynamicString: nat, script: nat, pcOffset: int, realmID: nat, interpreter: nat,
                     categoryLabel: nat -> string)
    requires interpreter < Pow2(16)
    ensures ViewOf(JsFrame(labelString, dynamicString, script, pcOffset, realmID, interpreter), categoryLabel)
         == JsView(labelString, dynamicString, script, pcOffset, realmID, interpreter * 65536 + 4)
  {
    KindFlagsAre(interpreter);
    NoCategoryLabel(interpreter, 4);
    KindFrames(interpreter, 0, labelString, dynamicString, script, pcOffset, realmID);
    LabelShown(JsFrame(labelString, dynamicString, script, pcOffset, realmID, interpreter), categoryLabel);
    hide Pow2, Or, Shl, IsJsFrame, Label;
  }

  lemma LabelFrameIsNative(labelString: string, dynamicString: nat, sp: nat, categoryPair: nat, flags: nat)
    requires LabelArguments(categoryPair, flags)
    ensures !IsJsFrame(LabelFrame(labelString, dynamicString, sp, categoryPair, flags))
  {
    hide LabelArguments, LabelFlags, Bit;
    LabelFlagsDecode(categoryPair, flags);
  }

  lemma SmallPowers()
    ensures Pow2(0) == 1 && Pow2(1) == 2 && Pow2(2) == 4
  {
  }

  lemma LowBitsOf(c: nat, low: nat)
    requires low < 65536
    ensures var f := c * 65536 + low;
            f % 2 == low % 2 && (f / 2) % 2 == (low / 2) % 2 && (f / 4) % 2 == (low / 4) % 2
  {
    EightApart(c * 8192, low);
  }

  lemma EightApart(k: nat, low: nat)
    ensures var f := 8 * k + low;
            f % 2 == low % 2 && (f / 2) % 2 == (low / 2) % 2 && (f / 4) % 2 == (low / 4) % 2
  {
    DivModUnique(8 * k + low, 2, 4 * k + low / 2, low % 2);
    DivModUnique(8 * k + low, 4, 2 * k + low / 4, low % 4);
    AddMultiple(low / 2, 2 * k, 2);
    AddMultiple(low / 4, k, 2);
  }

  /** The flags of the frames that carry only a kind bit and a category pair. */
  lemma KindFlagsDecode(categoryPair: nat)
    requires categoryPair < Pow2(16)
    ensures var m := Or(Pow2(IS_SP_MARKER_FRAME), Shl(categoryPair, FLAGS_BITCOUNT, 32));
            Bit(m, IS_JS_FRAME) == 0 && Bit(m, IS_SP_MARKER_FRAME) == 1 && Bit(m, IS_LABEL_FRAME) == 0
    ensures var j := Or(Shl(categoryPair, FLAGS_BITCOUNT, 32), Pow2(IS_JS_FRAME));
            Bit(j, IS_JS_FRAME) == 1 && Bit(j, LABEL_DETERMINED_BY_CATEGORY_PAIR) == 0
  {
    FlagPowers();
    SmallPowers();
    hide Pow2, Or;
    DivModUnique(categoryPair * Pow2(16), Pow2(32), 0, categoryPair * Pow2(16));
    OrDisjoint(categoryPair * 65536, 2, 16);
    OrDisjoint(categoryPair * 65536, 4, 16);
    LowBitsOf(categoryPair, 2);
    LowBitsOf(categoryPair, 4);
    DivModUnique(categoryPair * 65536 + 4, 256, categoryPair * 256, 4);
    EightApart(categoryPair * 32, 0);
  }

  lemma KindFrames(categoryPair: nat, sp: nat, labelString: string, dynamicString: nat, script: nat, pcOffset: int, realmID: nat)
    requires categoryPair < Pow2(16)
    ensures !IsJsFrame(SpMarkerFrame(sp, categoryPair))
    ensures PlainJs(JsFrame(labelString, dynamicString, script, pcOffset, realmID, categoryPair))
    ensures IsJsFrame(JsFrame(labelString, dynamicString, script, pcOffset, realmID, categoryPair))
  {
    KindFlagsDecode(categoryPair);
    BitsAre01(Or(Shl(categoryPair, FLAGS_BITCOUNT, 32), Pow2(IS_JS_FRAME)));
    hide Pow2, Or, Shl, Bit;
  }

  lemma BitsAre01(x: nat)
    ensures Bit(x, 8) == 0 || Bit(x, 8) == 1
  {
    hide Pow2;
  }

  /** Joining a word of upper bits with two of lower bits. */
  lemma OrDisjointBelow(high: nat, a: nat, b: nat)
    requires high % 65536 == 0 && a < 65536 && b < 65536
    ensures Or(Or(a, high), b) == high + Or(b, a)
  {
    FlagPowers();
    hide Pow2;
    OrDisjoint(high, a, 16);
    OrBelow(b, a, 16);
    OrDisjoint(high, Or(b, a), 16);
    OrHighLow(high, a, b, 16);
  }

  lemma {:induction false} OrHighLow(high: nat, a: nat, b: nat, k: nat)
    requires high % Pow2(k) == 0 && a < Pow2(k) && b < Pow2(k)
    ensures Or(high + a, b) == high + Or(b, a)
    decreases k
  {
    if k > 0 {
      ModHalf(high, Pow2(k - 1));
      assert (high + a) / 2 == high / 2 + a / 2;
      OrHighLow(high / 2, a / 2, b / 2, k - 1);
      OrHalves(high + a, b);
      OrHalves(b, a);
    }
  }

  // ---------------------------------------------------------------------------
  // The writer
  // ---------------------------------------------------------------------------

  class ProfilingStack {
    const categoryLabel: nat -> string
    const otherCategory: nat
    const interpreterCategory: nat
    var frames: array<Frame>
    var capacity: nat
    var stackPointer: nat

    // The stores made so far that a sampler can see, in program order; each is logged where it is made.
    ghost var stores: seq<Store>

    ghost predicate Valid()
      reads this
    {
      && capacity == frames.Length && stackPointer <= capacity
      && otherCategory < Pow2(16) && interpreterCategory < Pow2(16)
    }

    ghost function Mem(): Memory
      reads this, frames
    {
      Memory(frames[..], stackPointer)
    }

    /** The frames a sampler reads now. */
    ghost function Sample(): seq<View>
      requires Valid()
      reads this, frames
    {
      Visible(Mem(), categoryLabel)
    }

    constructor (categoryLabel: nat -> string, otherCategory: nat, interpreterCategory: nat)
      requires otherCategory < Pow2(16) && interpreterCategory < Pow2(16)
      ensures Valid() && Sample() == [] && capacity == 0 && stores == [] && fresh(frames)
    {
      this.categoryLabel := categoryLabel;
      this.otherCategory, this.interpreterCategory := otherCategory, interpreterCategory;
      frames, capacity, stackPointer, stores := new Frame[0], 0, 0, [];
    }

    /** A release store to one field of one frame. */
    method StoreField(i: nat, field: Field, from: Frame)
      requires Valid() && i < capacity
      modifies frames, this`stores
      ensures frames[..] == old(frames[..])[i := Put(old(frames[i]), field, from)]
      ensures stores == old(stores) + [SetField(i, field, from)]
    {
      frames[i] := Put(frames[i], field, from);
      stores := stores + [SetField(i, field, from)];
    }

    /** A release store to the stack pointer. */
    method StoreStackPointer(n: nat)
      requires Valid() && n <= capacity
      modifies this`stackPointer, this`stores
      ensures Valid() && stackPointer == n && stores == old(stores) + [SetStackPointer(n)]
    {
      stackPointer := n;
      stores := stores + [SetStackPointer(n)];
    }

    /** The store that makes a new array visible; the capacity is not read by the sampler. */
    method StoreFrames(larger: array<Frame>)
      requires Valid() && stackPointer <= larger.Length
      modifies this`frames, this`capacity, this`stores
      ensures Valid() && frames == larger && stores == old(stores) + [SetFrames(larger[..])]
    {
      frames := larger;
      stores := stores + [SetFrames(larger[..])];
      capacity := larger.Length;
    }

    /** `operator=`, field by field. */
    method Assign(a: array<Frame>, i: nat, other: Frame)
      requires i < a.Length
      modifies a
      ensures a[..] == old(a[..])[i := Assigned(other, categoryLabel)]
    {
      a[i] := a[i].(labelString := Label(other, categoryLabel));
      a[i] := a[i].(dynamicString := other.dynamicString);
      a[i] := a[i].(spOrScript := other.spOrScript);
      a[i] := a[i].(pcOffset := other.pcOffset);
      a[i] := a[i].(realmID := other.realmID);
      a[i] := a[i].(flags := other.flags);
    }

    /** Copies all frames to a larger array, then publishes it in one store. */
    method EnsureCapacitySlow() returns (ghost grown: seq<Frame>)
      requires Valid() && stackPointer >= capacity
      modifies this`frames, this`capacity, this`stores
      ensures Valid() && fresh(frames)
      ensures var doubled := if old(capacity) > 0 then 2 * old(capacity) else 128;
              capacity == if doubled > stackPointer then doubled else stackPointer + 1
      ensures Grown(old(Mem()), grown, categoryLabel) && frames[..] == grown
      ensures forall k :: 0 <= k < old(capacity) ==> grown[k] == Assigned(old(frames[k]), categoryLabel)
      ensures stores == old(stores) + [SetFrames(grown)]
    {
      hide ViewOf, Assigned;
      var newCapacity := Max(stackPointer + 1, if capacity > 0 then 2 * capacity else INITIAL_CAPACITY);
      var newFrames := new Frame[newCapacity](_ => EMPTY_FRAME);
      var i := 0;
      while i < capacity
        invariant 0 <= i <= capacity
        invariant Valid() && frames == old(frames) && frames[..] == old(frames[..]) && stores == old(stores)
        invariant capacity == old(capacity) && stackPointer == old(stackPointer)
        invariant forall k :: 0 <= k < i ==> newFrames[k] == Assigned(frames[k], categoryLabel)
      {
        Assign(newFrames, i, frames[i]);
        i := i + 1;
      }
      grown := newFrames[..];
      forall k | 0 <= k < stackPointer ensures ViewOf(grown[k], categoryLabel) == ViewOf(frames[k], categoryLabel) {
        AssignedShowsSame(frames[k], categoryLabel);
      }
      StoreFrames(newFrames);
    }

    /** `initLabelFrame` and `initSpMarkerFrame`: offset and realm of an earlier frame stay in place. */
    method InitNativeFrame(i: nat, f: Frame)
      requires Valid() && i < capacity
      modifies frames, this`stores
      ensures stores == old(stores) + FieldStores(i, NATIVE_FIELDS, f)
      ensures frames[..] == old(frames[..])[i := Mix(old(frames[i]), FieldSet(NATIVE_FIELDS), f)]
    {
      hide Put, Mix, FieldSet, FieldStores;
      NativeFieldStores(i, old(frames[i]), f);
      StoreField(i, LabelField, f);
      StoreField(i, DynamicStringField, f);
      StoreField(i, SpOrScriptField, f);
      StoreField(i, FlagsField, f);
    }

    method InitJsFrame(i: nat, f: Frame)
      requires Valid() && i < capacity
      modifies frames, this`stores
      ensures stores == old(stores) + FieldStores(i, JS_FIELDS, f)
      ensures frames[..] == old(frames[..])[i := Mix(old(frames[i]), FieldSet(JS_FIELDS), f)]
    {
      hide Put, Mix, FieldSet, FieldStores;
      JsFieldStores(i, old(frames[i]), f);
      StoreField(i, LabelField, f);
      StoreField(i, DynamicStringField, f);
      StoreField(i, SpOrScriptField, f);
      StoreField(i, PcOffsetField, f);
      StoreField(i, RealmIDField, f);
      StoreField(i, FlagsField, f);
    }

    /** The capacity check every push begins with. */
    method MakeRoom() returns (ghost grown: seq<Frame>)
      requires Valid()
      modifies this`frames, this`capacity, this`stores
      ensures Valid() && stackPointer < capacity && (frames == old(frames) || fresh(frames))
      ensures old(stackPointer >= frames.Length) ==> Grown(old(Mem()), grown, categoryLabel)
      ensures frames[..] == if old(stackPointer >= frames.Length) then grown else old(frames[..])
      ensures stores == old(stores) + (if old(stackPointer >= frames.Length) then [SetFrames(grown)] else [])
    {
      if stackPointer >= capacity {
        grown := EnsureCapacitySlow();
      } else {
        grown := [];
      }
    }

    method PushLabelFrame(labelString: string, dynamicString: nat, sp: nat, categoryPair: nat, flags: nat)
      returns (ghost grown: seq<Frame>)
      requires Valid() && LabelArguments(categoryPair, flags)
      modifies this, frames
      ensures var f := LabelFrame(labelString, dynamicString, sp, categoryPair, flags);
              Valid() && Performed(PushNative(f), old(Mem()), old(stores), grown, Mem(), stores, categoryLabel)
      ensures Sample() == old(Sample()) + [NativeView(if (flags / 256) % 2 == 1 then categoryLabel(categoryPair) else labelString,
                                                      dynamicString, sp, categoryPair * 65536 + flags + (1 - flags % 2))]
    {
      hide Pow2, Bit, Mix, FieldSet, FieldStores, LabelFrame, LabelArguments, Grown, IsJsFrame, Performed;
      ghost var m := Mem();
      var f := LabelFrame(labelString, dynamicString, sp, categoryPair, flags);
      LabelFrameIsNative(labelString, dynamicString, sp, categoryPair, flags);
      grown := MakeRoom();
      var stackPointerVal := stackPointer;
      InitNativeFrame(stackPointerVal, f);
      StoreStackPointer(stackPointer + 1);
      PushPerformed(m, old(stores), grown, NATIVE_FIELDS, f, Mem(), stores, categoryLabel);
      PerformedShows(PushNative(f), m, old(stores), grown, Mem(), stores, categoryLabel);
      LabelFrameShows(labelString, dynamicString, sp, categoryPair, flags, categoryLabel);
    }

    method PushSpMarkerFrame(sp: nat) returns (ghost grown: seq<Frame>)
      requires Valid()
      modifies this, frames
      ensures Valid() && Performed(PushNative(SpMarkerFrame(sp, otherCategory)), old(Mem()), old(stores), grown, Mem(), stores, categoryLabel)
      ensures Sample() == old(Sample()) + [NativeView("", 0, sp, otherCategory * 65536 + 2)]
    {
      hide Pow2, Bit, Mix, FieldSet, FieldStores, SpMarkerFrame, JsFrame, Grown, IsJsFrame, PlainJs, Performed;
      ghost var m := Mem();
      var f := SpMarkerFrame(sp, otherCategory);
      KindFrames(otherCategory, sp, "", 0, 0, 0, 0);
      grown := MakeRoom();
      var oldStackPointer := stackPointer;
      InitNativeFrame(oldStackPointer, f);
      StoreStackPointer(oldStackPointer + 1);
      PushPerformed(m, old(stores), grown, NATIVE_FIELDS, f, Mem(), stores, categoryLabel);
      PerformedShows(PushNative(f), m, old(stores), grown, Mem(), stores, categoryLabel);
      SpMarkerFrameShows(sp, otherCategory, categoryLabel);
    }

    method PushJsFrame(labelString: string, dynamicString: nat, script: nat, pcOffset: int, realmID: nat)
      returns (ghost grown: seq<Frame>)
      requires Valid()
      modifies this, frames
      ensures var f := JsFrame(labelString, dynamicString, script, pcOffset, realmID, interpreterCategory);
              Valid() && PlainJs(f) && Performed(PushJs(f), old(Mem()), old(stores), grown, Mem(), stores, categoryLabel)
      ensures Sample() == old(Sample())
                          + [JsView(labelString, dynamicString, script, pcOffset, realmID, interpreterCategory * 65536 + 4)]
    {
      hide Pow2, Bit, Mix, FieldSet, FieldStores, SpMarkerFrame, JsFrame, Grown, IsJsFrame, PlainJs, Performed;
      ghost var m := Mem();
      var f := JsFrame(labelString, dynamicString, script, pcOffset, realmID, interpreterCategory);
      KindFrames(interpreterCategory, 0, labelString, dynamicString, script, pcOffset, realmID);
      grown := MakeRoom();
      var oldStackPointer := stackPointer;
      InitJsFrame(oldStackPointer, f);
      StoreStackPointer(stackPointer + 1);
      PushPerformed(m, old(stores), grown, JS_FIELDS, f, Mem(), stores, categoryLabel);
      PerformedShows(PushJs(f), m, old(stores), grown, Mem(), stores, categoryLabel);
      JsFrameShows(labelString, dynamicString, script, pcOffset, realmID, interpreterCategory, categoryLabel);
    }

    method Pop()
      requires Valid() && stackPointer > 0
      modifies this`stackPointer, this`stores
      ensures Valid() && Performed(ProfilingStacks.Pop, old(Mem()), old(stores), [], Mem(), stores, categoryLabel)
      ensures Sample() == old(Sample())[..|old(Sample())| - 1]
    {
      var oldStackPointer := stackPointer;
      StoreStackPointer(oldStackPointer - 1);
      RunOne(old(Mem()), SetStackPointer(stackPointer));
      PerformedShows(ProfilingStacks.Pop, old(Mem()), old(stores), [], Mem(), stores, categoryLabel);
    }

    /** `setIsOSRFrame` on a frame of the stack. */
    method SetIsOSRFrame(i: nat, isOSR: bool)
      requires Valid() && i < stackPointer
      modifies frames, this`stores
      ensures Valid() && Performed(SetIsOSR(i, isOSR), old(Mem()), old(stores), [], Mem(), stores, categoryLabel)
      ensures frames[..] == old(frames[..])[i := old(frames[i]).(flags := frames[i].flags)]
      ensures old(frames[i].flags) < 0x1_0000_0000 ==>
                forall k: nat :: Bit(frames[i].flags, k) == if k == 3 then (if isOSR then 1 else 0) else Bit(old(frames[i].flags), k)
    {
      hide Pow2, Or, And, Bit, WithOSR, Performed;
      if frames[i].flags < 0x1_0000_0000 {
        OsrSetsBit(frames[i].flags, isOSR);
      }
      var from := frames[i].(flags := WithOSR(frames[i].flags, isOSR));
      StoreField(i, FlagsField, from);
      RunOne(old(Mem()), SetField(i, FlagsField, from));
      FlagPerformed(old(Mem()), old(stores), i, isOSR, Mem(), stores, categoryLabel);
    }
  }

  /** The operation's stores have been made, in program order, and no others. */
  ghost predicate Performed(op: Op, m: Memory, stores: seq<Store>, grown: seq<Frame>, m': Memory, stores': seq<Store>,
                            categoryLabel: nat -> string)
  {
    && WellFormed(m) && Legal(op, m) && GrowsIfFull(op, m, grown, categoryLabel)
    && stores' == stores + StoresOf(op, m, grown)
    && m' == Run(m, StoresOf(op, m, grown))
  }

  lemma FlagPerformed(m: Memory, stores: seq<Store>, i: nat, isOSR: bool, m': Memory, stores': seq<Store>, categoryLabel: nat -> string)
    requires WellFormed(m) && i < m.stackPointer
    requires var all := [SetField(i, FlagsField, m.frames[i].(flags := WithOSR(m.frames[i].flags, isOSR)))];
             stores' == stores + all && m' == Run(m, all)
    ensures Performed(SetIsOSR(i, isOSR), m, stores, [], m', stores', categoryLabel)
  {
    hide WithOSR, Run;
  }

  /** Once its stores are made, a sampler reads what the operation does to the logical stack. */
  lemma PerformedShows(op: Op, m: Memory, stores: seq<Store>, grown: seq<Frame>, m': Memory, stores': seq<Store>,
                       categoryLabel: nat -> string)
    requires Performed(op, m, stores, grown, m', stores', categoryLabel)
    ensures WellFormed(m') && Visible(m', categoryLabel) == Logical(op, Visible(m, categoryLabel), categoryLabel)
  {
    hide Run, StoresOf, Visible, Logical;
    var all := StoresOf(op, m, grown);
    assert all[..|all|] == all;
    SampleIsBeforeOrAfter(op, m, grown, |all|, categoryLabel);
  }

  lemma PushPerformed(m: Memory, stores: seq<Store>, grown: seq<Frame>, fields: seq<Field>, f: Frame, m': Memory,
                      stores': seq<Store>, categoryLabel: nat -> string)
    requires WellFormed(m) && (m.stackPointer >= |m.frames| ==> Grown(m, grown, categoryLabel))
    requires (fields == NATIVE_FIELDS && !IsJsFrame(f)) || (fields == JS_FIELDS && IsJsFrame(f))
    requires var n := m.stackPointer;
             var room := if n >= |m.frames| then [SetFrames(grown)] else [];
             var frames := if n >= |m.frames| then grown else m.frames;
             && stores' == ((stores + room) + FieldStores(n, fields, f)) + [SetStackPointer(n + 1)]
             && m' == Memory(frames[n := Mix(frames[n], FieldSet(fields), f)], n + 1)
    ensures fields == NATIVE_FIELDS && !IsJsFrame(f) ==> Performed(PushNative(f), m, stores, grown, m', stores', categoryLabel)
    ensures fields == JS_FIELDS && IsJsFrame(f) ==> Performed(PushJs(f), m, stores, grown, m', stores', categoryLabel)
  {
    hide Mix, FieldSet, FieldStores, Run, IsJsFrame, Grown;
    GrownIsLarger(m, grown, categoryLabel);
    PushStores(m, grown, fields, f);
    var n := m.stackPointer;
    Reassociate(stores, if n >= |m.frames| then [SetFrames(grown)] else [], FieldStores(n, fields, f), [SetStackPointer(n + 1)]);
  }

  lemma Reassociate(a: seq<Store>, b: seq<Store>, c: seq<Store>, d: seq<Store>)
    ensures ((a + b) + c) + d == a + (b + c + d)
  {
  }

  lemma GrownIsLarger(m: Memory, grown: seq<Frame>, categoryLabel: nat -> string)
    ensures Grown(m, grown, categoryLabel) ==> m.stackPointer < |grown|
  {
  }

  lemma NativeFieldStores(i: nat, g: Frame, f: Frame)
    ensures FieldStores(i, NATIVE_FIELDS, f)
         == [SetField(i, LabelField, f)] + [SetField(i, DynamicStringField, f)] + [SetField(i, SpOrScriptField, f)]
            + [SetField(i, FlagsField, f)]
    ensures Put(Put(Put(Put(g, LabelField, f), DynamicStringField, f), SpOrScriptField, f), FlagsField, f)
         == Mix(g, FieldSet(NATIVE_FIELDS), f)
  {
    assert NATIVE_FIELDS[0] == LabelField && NATIVE_FIELDS[1] == DynamicStringField;
    assert NATIVE_FIELDS[2] == SpOrScriptField && NATIVE_FIELDS[3] == FlagsField;
  }

  lemma JsFieldStores(i: nat, g: Frame, f: Frame)
    ensures FieldStores(i, JS_FIELDS, f)
         == [SetField(i, LabelField, f)] + [SetField(i, DynamicStringField, f)] + [SetField(i, SpOrScriptField, f)]
            + [SetField(i, PcOffsetField, f)] + [SetField(i, RealmIDField, f)] + [SetField(i, FlagsField, f)]
    ensures Put(Put(Put(Put(Put(Put(g, LabelField, f), DynamicStringField, f), SpOrScriptField, f), PcOffsetField, f),
                    RealmIDField, f), FlagsField, f)
         == Mix(g, FieldSet(JS_FIELDS), f)
  {
    JsFieldsMixed(g, f);
  }

  lemma JsFieldsMixed(f: Frame, from: Frame)
    ensures Mix(f, FieldSet(JS_FIELDS), from) == from
  {
    assert JS_FIELDS[0] == LabelField && JS_FIELDS[1] == DynamicStringField && JS_FIELDS[2] == SpOrScriptField;
    assert JS_FIELDS[3] == PcOffsetField && JS_FIELDS[4] == RealmIDField && JS_FIELDS[5] == FlagsField;
  }

  lemma RunOne(m: Memory, s: Store)
    ensures Run(m, [s]) == Apply(m, s)
  {
    RunAppend(m, [], s);
    assert [] + [s] == [s];
  }

  /** The memory after all stores of a push. */
  lemma PushStores(m: Memory, grown: seq<Frame>, fields: seq<Field>, f: Frame)
    requires WellFormed(m) && (m.stackPointer >= |m.frames| ==> m.stackPointer < |grown|)
    ensures var n := m.stackPointer;
            var frames := if n >= |m.frames| then grown else m.frames;
            var room := if n >= |m.frames| then [SetFrames(grown)] else [];
            Run(m, room + FieldStores(n, fields, f) + [SetStackPointer(n + 1)])
              == Memory(frames[n := Mix(frames[n], FieldSet(fields), f)], n + 1)
  {
    hide Mix, FieldSet, FieldStores;
    var n := m.stackPointer;
    var room := if n >= |m.frames| then [SetFrames(grown)] else [];
    var m1 := m.(frames := if n >= |m.frames| then grown else m.frames);
    var body := FieldStores(n, fields, f);
    assert Run(m, room) == m1 by {
      if room != [] {
        RunAppend(m, [], SetFrames(grown));
        assert [] + room == room;
      }
    }
    FieldStoresMix(m1, n, fields, f);
    RunConcat(m, room, body);
    RunAppend(m, room + body, SetStackPointer(n + 1));
  }
}
