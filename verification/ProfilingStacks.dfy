/**
 The profiling stack of `public/ProfilingStack.h`, at the granularity of its stores.

 One thread pushes and pops; a sampler may suspend it between any two stores and read the
 frames below the stack pointer. All stores are release stores, so a suspended thread has
 performed a prefix of them in program order.
 */
module ProfilingStacks {
  import opened Words

  // ---------------------------------------------------------------------------
  // Frames and what a sampler reads of them
  // ---------------------------------------------------------------------------

  // The positions of the flag bits; the category pair lies above the flags.
  const IS_LABEL_FRAME: nat := 0
  const IS_SP_MARKER_FRAME: nat := 1
  const IS_JS_FRAME: nat := 2
  const JS_OSR: nat := 3
  const LABEL_DETERMINED_BY_CATEGORY_PAIR: nat := 8
  const FLAGS_BITCOUNT: nat := 16

  /** Pointers are numbers, 0 the null pointer; labels are static strings. */
  datatype Frame = Frame(labelString: string, dynamicString: nat, spOrScript: nat, pcOffset: int, realmID: nat, flags: nat)

  predicate IsJsFrame(f: Frame) {
    Bit(f.flags, IS_JS_FRAME) == 1
  }

  /** The label shown for a frame; some flags replace it by the label of the category. */
  function Label(f: Frame, categoryLabel: nat -> string): string {
    if Bit(f.flags, LABEL_DETERMINED_BY_CATEGORY_PAIR) == 1 then categoryLabel(Shr(f.flags, FLAGS_BITCOUNT)) else f.labelString
  }

  /** Bit 8 of the flags replaces a frame's label by that of the category in the bits from 16 on. */
  lemma LabelShown(f: Frame, categoryLabel: nat -> string)
    ensures Label(f, categoryLabel) == if (f.flags / 256) % 2 == 1 then categoryLabel(f.flags / 65536) else f.labelString
  {
    FlagPowers();
    hide Pow2;
  }

  /** What may be read of a frame: the offset and the realm belong to JS frames only. */
  datatype View =
    | JsView(labelString: string, dynamicString: nat, script: nat, pcOffset: int, realmID: nat, flags: nat)
    | NativeView(labelString: string, dynamicString: nat, sp: nat, flags: nat)

  function ViewOf(f: Frame, categoryLabel: nat -> string): View {
    if IsJsFrame(f) then
      JsView(Label(f, categoryLabel), f.dynamicString, f.spOrScript, f.pcOffset, f.realmID, f.flags)
    else
      NativeView(Label(f, categoryLabel), f.dynamicString, f.spOrScript, f.flags)
  }

  datatype Memory = Memory(frames: seq<Frame>, stackPointer: nat)

  ghost predicate WellFormed(m: Memory) {
    m.stackPointer <= |m.frames|
  }

  /** The frames a sampler reads. */
  ghost function Visible(m: Memory, categoryLabel: nat -> string): (v: seq<View>)
    requires WellFormed(m)
    ensures |v| == m.stackPointer
  {
    seq(m.stackPointer, i requires 0 <= i < m.stackPointer => ViewOf(m.frames[i], categoryLabel))
  }

  // ---------------------------------------------------------------------------
  // Stores
  // ---------------------------------------------------------------------------

  datatype Field = LabelField | DynamicStringField | SpOrScriptField | PcOffsetField | RealmIDField | FlagsField

  /** One field taken from another frame. */
  function Put(f: Frame, field: Field, from: Frame): Frame {
    match field
    case LabelField => f.(labelString := from.labelString)
    case DynamicStringField => f.(dynamicString := from.dynamicString)
    case SpOrScriptField => f.(spOrScript := from.spOrScript)
    case PcOffsetField => f.(pcOffset := from.pcOffset)
    case RealmIDField => f.(realmID := from.realmID)
    case FlagsField => f.(flags := from.flags)
  }

  /** A store to one field of one frame, to the stack pointer, or to the pointer to the frames. */
  datatype Store =
    | SetField(i: nat, field: Field, from: Frame)
    | SetStackPointer(n: nat)
    | SetFrames(frames: seq<Frame>)

  ghost function Apply(m: Memory, s: Store): Memory {
    match s
    case SetField(i, field, from) =>
      if i < |m.frames| then m.(frames := m.frames[i := Put(m.frames[i], field, from)]) else m
    case SetStackPointer(n) => m.(stackPointer := n)
    case SetFrames(frames) => m.(frames := frames)
  }

  ghost function Run(m: Memory, stores: seq<Store>): Memory {
    if stores == [] then m else Apply(Run(m, stores[..|stores| - 1]), stores[|stores| - 1])
  }

  lemma RunAppend(m: Memory, stores: seq<Store>, s: Store)
    ensures Run(m, stores + [s]) == Apply(Run(m, stores), s)
  {
    assert (stores + [s])[..|stores|] == stores;
  }

  lemma {:induction false} RunConcat(m: Memory, a: seq<Store>, b: seq<Store>)
    ensures Run(m, a + b) == Run(Run(m, a), b)
    decreases |b|
  {
    if b == [] {
      assert a + b == a;
    } else {
      RunConcat(m, a, b[..|b| - 1]);
      assert (a + b)[..|a + b| - 1] == a + b[..|b| - 1];
    }
  }

  ghost function FieldStores(i: nat, fields: seq<Field>, from: Frame): (r: seq<Store>)
    ensures |r| == |fields|
  {
    seq(|fields|, k requires 0 <= k < |fields| => SetField(i, fields[k], from))
  }

  /** A frame with some fields taken from another. */
  ghost function Mix(f: Frame, fields: set<Field>, from: Frame): Frame {
    Frame(if LabelField in fields then from.labelString else f.labelString,
          if DynamicStringField in fields then from.dynamicString else f.dynamicString,
          if SpOrScriptField in fields then from.spOrScript else f.spOrScript,
          if PcOffsetField in fields then from.pcOffset else f.pcOffset,
          if RealmIDField in fields then from.realmID else f.realmID,
          if FlagsField in fields then from.flags else f.flags)
  }

  ghost function FieldSet(fields: seq<Field>): set<Field> {
    set x | x in fields
  }

  lemma {:induction false} FieldStoresMix(m: Memory, i: nat, fields: seq<Field>, from: Frame)
    requires i < |m.frames|
    ensures Run(m, FieldStores(i, fields, from)) == m.(frames := m.frames[i := Mix(m.frames[i], FieldSet(fields), from)])
    decreases |fields|
  {
    if fields == [] {
      assert m.frames[i := m.frames[i]] == m.frames;
    } else {
      hide Mix, Put;
      var front, x := fields[..|fields| - 1], fields[|fields| - 1];
      FieldStoresMix(m, i, front, from);
      assert FieldStores(i, fields, from)[..|fields| - 1] == FieldStores(i, front, from);
      assert FieldSet(fields) == FieldSet(front) + {x};
      PutMix(m.frames[i], FieldSet(front), x, from);
    }
  }

  lemma PutMix(f: Frame, s: set<Field>, x: Field, from: Frame)
    ensures Put(Mix(f, s, from), x, from) == Mix(f, s + {x}, from)
  {
  }

  // ---------------------------------------------------------------------------
  // Operations as lists of stores
  // ---------------------------------------------------------------------------

  const JS_FIELDS: seq<Field> :=
    [LabelField, DynamicStringField, SpOrScriptField, PcOffsetField, RealmIDField, FlagsField]

  /** Label and marker frames leave the offset and the realm of an earlier frame in place. */
  const NATIVE_FIELDS: seq<Field> := [LabelField, DynamicStringField, SpOrScriptField, FlagsField]

  /** A push, with the frame it describes; a pop; or the change of a frame's OSR flag. */
  datatype Op = PushNative(frame: Frame) | PushJs(frame: Frame) | Pop | SetIsOSR(i: nat, isOSR: bool)

  ghost predicate Legal(op: Op, m: Memory) {
    match op
    case PushNative(f) => !IsJsFrame(f)
    case PushJs(f) => IsJsFrame(f)
    case Pop => m.stackPointer > 0
    case SetIsOSR(i, _) => i < m.stackPointer
  }

  function WithOSR(flags: nat, isOSR: bool): nat {
    if isOSR then Or(flags, Pow2(JS_OSR))
    else if flags < Pow2(32) && Pow2(JS_OSR) < Pow2(32) then And(flags, Not(Pow2(JS_OSR), 32))
    else flags
  }

  function ViewWithOSR(v: View, isOSR: bool): View {
    match v
    case JsView(_, _, _, _, _, flags) => v.(flags := WithOSR(flags, isOSR))
    case NativeView(_, _, _, flags) => v.(flags := WithOSR(flags, isOSR))
  }

  /** A larger array that shows the same frames below the stack pointer. */
  ghost predicate Grown(m: Memory, frames: seq<Frame>, categoryLabel: nat -> string) {
    && WellFormed(m) && m.stackPointer < |frames|
    && forall i :: 0 <= i < m.stackPointer ==> ViewOf(frames[i], categoryLabel) == ViewOf(m.frames[i], categoryLabel)
  }

  /** A push onto a full array first grows it, showing the same frames. */
  ghost predicate GrowsIfFull(op: Op, m: Memory, grown: seq<Frame>, categoryLabel: nat -> string) {
    (op.PushNative? || op.PushJs?) && m.stackPointer >= |m.frames| ==> Grown(m, grown, categoryLabel)
  }

  /** The stores of an operation in program order; `grown` is used when the array is full. */
  ghost function StoresOf(op: Op, m: Memory, grown: seq<Frame>): seq<Store>
    requires WellFormed(m) && Legal(op, m)
  {
    var room := if m.stackPointer >= |m.frames| then [SetFrames(grown)] else [];
    match op
    case PushNative(f) => room + FieldStores(m.stackPointer, NATIVE_FIELDS, f) + [SetStackPointer(m.stackPointer + 1)]
    case PushJs(f) => room + FieldStores(m.stackPointer, JS_FIELDS, f) + [SetStackPointer(m.stackPointer + 1)]
    case Pop => [SetStackPointer(m.stackPointer - 1)]
    case SetIsOSR(i, isOSR) =>
      [SetField(i, FlagsField, m.frames[i].(flags := WithOSR(m.frames[i].flags, isOSR)))]
  }

  /** What an operation does to the logical stack. */
  ghost function Logical(op: Op, v: seq<View>, categoryLabel: nat -> string): seq<View> {
    match op
    case PushNative(f) => v + [ViewOf(f, categoryLabel)]
    case PushJs(f) => v + [ViewOf(f, categoryLabel)]
    case Pop => if v == [] then [] else v[..|v| - 1]
    case SetIsOSR(i, isOSR) => if i < |v| then v[i := ViewWithOSR(v[i], isOSR)] else v
  }

  // ---------------------------------------------------------------------------
  // Sampler safety in program order
  // ---------------------------------------------------------------------------

  /** Stores to frames at or above the stack pointer show nothing. */
  lemma HiddenStores(m: Memory, i: nat, fields: seq<Field>, from: Frame, k: nat, categoryLabel: nat -> string)
    requires WellFormed(m) && m.stackPointer <= i < |m.frames| && k <= |fields|
    ensures var m' := Run(m, FieldStores(i, fields, from)[..k]);
            WellFormed(m') && Visible(m', categoryLabel) == Visible(m, categoryLabel)
  {
    assert FieldStores(i, fields, from)[..k] == FieldStores(i, fields[..k], from);
    FieldStoresMix(m, i, fields[..k], from);
  }

  lemma OsrKeepsRest(flags: nat, isOSR: bool)
    ensures Bit(WithOSR(flags, isOSR), IS_JS_FRAME) == Bit(flags, IS_JS_FRAME)
    ensures Bit(WithOSR(flags, isOSR), LABEL_DETERMINED_BY_CATEGORY_PAIR) == Bit(flags, LABEL_DETERMINED_BY_CATEGORY_PAIR)
    ensures Shr(WithOSR(flags, isOSR), FLAGS_BITCOUNT) == Shr(flags, FLAGS_BITCOUNT)
  {
    FlagPowers();
    hide Pow2, Or, And;
    SetBit(flags, JS_OSR);
    if flags < Pow2(32) {
      ClearBit(flags, JS_OSR, 32);
    }
    BitThreeApart(flags);
  }

  /** Bit 3 of the new flags says whether the frame is an OSR frame; every other bit is as before. */
  lemma OsrSetsBit(flags: nat, isOSR: bool)
    requires flags < 0x1_0000_0000
    ensures forall k: nat :: Bit(WithOSR(flags, isOSR), k) == if k == 3 then (if isOSR then 1 else 0) else Bit(flags, k)
  {
    FlagPowers();
    hide Pow2, Or, And, Bit, Not;
    forall k: nat ensures Bit(WithOSR(flags, isOSR), k) == if k == 3 then (if isOSR then 1 else 0) else Bit(flags, k) {
      BitAfterSet(flags, 3, k);
      BitAfterClear(flags, 3, k, 32);
    }
  }

  /** Setting or clearing bit 3 changes no other bit. */
  lemma BitThreeApart(x: nat)
    ensures var set3, clear3 := x + (1 - (x / 8) % 2) * 8, x - ((x / 8) % 2) * 8;
            && (set3 / 4) % 2 == (clear3 / 4) % 2 == (x / 4) % 2
            && (set3 / 256) % 2 == (clear3 / 256) % 2 == (x / 256) % 2
            && set3 / 65536 == clear3 / 65536 == x / 65536
  {
    var q, r := x / 16, x % 8;
    assert x == 16 * q + 8 * ((x / 8) % 2) + r;
    SixteenApart(q, r, 0);
    SixteenApart(q, r, 1);
  }

  lemma SixteenApart(q: nat, r: nat, b: nat)
    requires r < 8 && b < 2
    ensures var x := 16 * q + 8 * b + r;
            (x / 4) % 2 == r / 4 && x / 256 == q / 16 && x / 65536 == q / 4096
  {
    var x := 16 * q + 8 * b + r;
    DivModUnique(x, 4, 4 * q + 2 * b + r / 4, r % 4);
    DivModUnique(4 * q + 2 * b + r / 4, 2, 2 * q + b, r / 4);
    DivModUnique(x, 256, q / 16, 16 * (q % 16) + 8 * b + r);
    DivModUnique(x, 65536, q / 4096, 16 * (q % 4096) + 8 * b + r);
  }

  lemma FlagPowers()
    ensures Pow2(2) == 4 && Pow2(3) == 8 && Pow2(8) == 256 && Pow2(16) == 65536 && Pow2(32) == 0x1_0000_0000
  {
    Pow2Values();
    Pow2Add(8, 8);
  }

  lemma GrownShowsSame(m: Memory, grown: seq<Frame>, categoryLabel: nat -> string)
    requires Grown(m, grown, categoryLabel)
    ensures var m' := Memory(grown, m.stackPointer);
            WellFormed(m') && Visible(m', categoryLabel) == Visible(m, categoryLabel)
  {
  }

  /** A push shows the old stack until its very last store. */
  lemma PushIsAtomic(m: Memory, fields: seq<Field>, f: Frame, k: nat, categoryLabel: nat -> string)
    requires WellFormed(m) && m.stackPointer < |m.frames| && k <= |fields| + 1
    requires fields == JS_FIELDS || (fields == NATIVE_FIELDS && !IsJsFrame(f))
    ensures var stores := FieldStores(m.stackPointer, fields, f) + [SetStackPointer(m.stackPointer + 1)];
            var m' := Run(m, stores[..k]);
            && WellFormed(m')
            && Visible(m', categoryLabel)
               == (if k == |stores| then Visible(m, categoryLabel) + [ViewOf(f, categoryLabel)] else Visible(m, categoryLabel))
  {
    hide ViewOf, IsJsFrame;
    var body := FieldStores(m.stackPointer, fields, f);
    var stores := body + [SetStackPointer(m.stackPointer + 1)];
    if k <= |fields| {
      assert stores[..k] == body[..k];
      HiddenStores(m, m.stackPointer, fields, f, k, categoryLabel);
    } else {
      assert stores[..k] == stores;
      RunAppend(m, body, SetStackPointer(m.stackPointer + 1));
      FieldStoresMix(m, m.stackPointer, fields, f);
      AllFieldsStored(m.frames[m.stackPointer], fields, f, categoryLabel);
    }
  }

  lemma AllFieldsStored(f: Frame, fields: seq<Field>, from: Frame, categoryLabel: nat -> string)
    requires fields == JS_FIELDS || (fields == NATIVE_FIELDS && !IsJsFrame(from))
    ensures ViewOf(Mix(f, FieldSet(fields), from), categoryLabel) == ViewOf(from, categoryLabel)
  {
    hide ViewOf, IsJsFrame;
    assert LabelField == fields[0] && DynamicStringField == fields[1] && SpOrScriptField == fields[2];
    assert FlagsField == fields[|fields| - 1];
    if fields == JS_FIELDS {
      assert PcOffsetField == fields[3] && RealmIDField == fields[4];
      assert Mix(f, FieldSet(fields), from) == from;
    } else {
      NativeViewOf(Mix(f, FieldSet(fields), from), from, categoryLabel);
    }
  }

  /** Frames other than JS frames are viewed through four fields only. */
  lemma NativeViewOf(f: Frame, g: Frame, categoryLabel: nat -> string)
    requires !IsJsFrame(g) && f.labelString == g.labelString && f.dynamicString == g.dynamicString
    requires f.spOrScript == g.spOrScript && f.flags == g.flags
    ensures ViewOf(f, categoryLabel) == ViewOf(g, categoryLabel)
  {
  }

  lemma OsrView(f: Frame, isOSR: bool, categoryLabel: nat -> string)
    ensures ViewOf(f.(flags := WithOSR(f.flags, isOSR)), categoryLabel) == ViewWithOSR(ViewOf(f, categoryLabel), isOSR)
  {
    OsrKeepsRest(f.flags, isOSR);
    hide WithOSR;
  }

  /**
   After any number of an operation's stores, a sampler reads the stack from before the
   operation or, once all stores are done, the stack after it; never a partly written frame.
   */
  lemma SampleIsBeforeOrAfter(op: Op, m: Memory, grown: seq<Frame>, k: nat, categoryLabel: nat -> string)
    requires WellFormed(m) && Legal(op, m) && k <= |StoresOf(op, m, grown)|
    requires GrowsIfFull(op, m, grown, categoryLabel)
    ensures var stores := StoresOf(op, m, grown);
            var m' := Run(m, stores[..k]);
            && WellFormed(m')
            && Visible(m', categoryLabel)
               == (if k == |stores| then Logical(op, Visible(m, categoryLabel), categoryLabel) else Visible(m, categoryLabel))
  {
    hide ViewOf, IsJsFrame, ViewWithOSR, WithOSR, FieldStores, Run, Visible;
    match op
    case PushNative(f) => PushSample(m, grown, NATIVE_FIELDS, f, k, categoryLabel);
    case PushJs(f) => PushSample(m, grown, JS_FIELDS, f, k, categoryLabel);
    case Pop =>
      OneStore(m, SetStackPointer(m.stackPointer - 1), k);
      PopSample(m, categoryLabel);
    case SetIsOSR(i, isOSR) =>
      var from := m.frames[i].(flags := WithOSR(m.frames[i].flags, isOSR));
      OneStore(m, SetField(i, FlagsField, from), k);
      OsrSample(m, i, isOSR, categoryLabel);
  }

  /** An operation of a single store is not begun or is done. */
  lemma OneStore(m: Memory, s: Store, k: nat)
    requires k <= 1
    ensures Run(m, [s][..k]) == if k == 1 then Apply(m, s) else m
  {
    if k == 1 {
      assert [s][..k] == [] + [s];
      RunAppend(m, [], s);
    }
  }

  lemma PopSample(m: Memory, categoryLabel: nat -> string)
    requires WellFormed(m) && m.stackPointer > 0
    ensures var m' := m.(stackPointer := m.stackPointer - 1);
            WellFormed(m') && Visible(m', categoryLabel) == Visible(m, categoryLabel)[..m.stackPointer - 1]
  {
  }

  lemma OsrSample(m: Memory, i: nat, isOSR: bool, categoryLabel: nat -> string)
    requires WellFormed(m) && i < m.stackPointer
    ensures var f := m.frames[i].(flags := WithOSR(m.frames[i].flags, isOSR));
            var m', v := m.(frames := m.frames[i := f]), Visible(m, categoryLabel);
            WellFormed(m') && Visible(m', categoryLabel) == v[i := ViewWithOSR(v[i], isOSR)]
  {
    hide ViewOf, ViewWithOSR, WithOSR;
    OsrView(m.frames[i], isOSR, categoryLabel);
  }

  lemma PushSample(m: Memory, grown: seq<Frame>, fields: seq<Field>, f: Frame, k: nat, categoryLabel: nat -> string)
    requires WellFormed(m) && (m.stackPointer >= |m.frames| ==> Grown(m, grown, categoryLabel))
    requires fields == JS_FIELDS || (fields == NATIVE_FIELDS && !IsJsFrame(f))
    requires k <= (if m.stackPointer >= |m.frames| then 1 else 0) + |fields| + 1
    ensures var room := if m.stackPointer >= |m.frames| then [SetFrames(grown)] else [];
            var stores := room + FieldStores(m.stackPointer, fields, f) + [SetStackPointer(m.stackPointer + 1)];
            var m' := Run(m, stores[..k]);
            && WellFormed(m')
            && Visible(m', categoryLabel)
               == (if k == |stores| then Visible(m, categoryLabel) + [ViewOf(f, categoryLabel)] else Visible(m, categoryLabel))
  {
    hide ViewOf, IsJsFrame, Visible, FieldStores;
    var push := FieldStores(m.stackPointer, fields, f) + [SetStackPointer(m.stackPointer + 1)];
    if m.stackPointer < |m.frames| {
      assert [] + FieldStores(m.stackPointer, fields, f) + [SetStackPointer(m.stackPointer + 1)] == push;
      PushIsAtomic(m, fields, f, k, categoryLabel);
    } else {
      var room := [SetFrames(grown)];
      var stores := room + FieldStores(m.stackPointer, fields, f) + [SetStackPointer(m.stackPointer + 1)];
      assert stores == room + push;
      var m1 := m.(frames := grown);
      GrownShowsSame(m, grown, categoryLabel);
      if k > 0 {
        RunAppend(m, [], SetFrames(grown));
        assert [] + room == room && stores[..k] == room + push[..k - 1];
        RunConcat(m, room, push[..k - 1]);
        PushIsAtomic(m1, fields, f, k - 1, categoryLabel);
      }
    }
  }

  // ---------------------------------------------------------------------------
  // Whole runs
  // ---------------------------------------------------------------------------

  /** All stores of a sequence of operations; each operation has its own larger array to grow into. */
  ghost function Trace(m: Memory, ops: seq<Op>, grown: seq<seq<Frame>>): seq<Store>
    requires |grown| == |ops| && LegalRun(m, ops, grown)
    decreases |ops|
  {
    if ops == [] then []
    else
      var first := StoresOf(ops[0], m, grown[0]);
      first + Trace(Run(m, first), ops[1..], grown[1..])
  }

  ghost predicate LegalRun(m: Memory, ops: seq<Op>, grown: seq<seq<Frame>>)
    requires |grown| == |ops|
    decreases |ops|
  {
    WellFormed(m) &&
    (ops == [] || (Legal(ops[0], m) && LegalRun(Run(m, StoresOf(ops[0], m, grown[0])), ops[1..], grown[1..])))
  }

  /** Every larger array used shows the same frames below the stack pointer. */
  ghost predicate GrowsRight(m: Memory, ops: seq<Op>, grown: seq<seq<Frame>>, categoryLabel: nat -> string)
    requires |grown| == |ops| && LegalRun(m, ops, grown)
    decreases |ops|
  {
    ops == [] ||
    (&& GrowsIfFull(ops[0], m, grown[0], categoryLabel)
     && GrowsRight(Run(m, StoresOf(ops[0], m, grown[0])), ops[1..], grown[1..], categoryLabel))
  }

  ghost function LogicalRun(ops: seq<Op>, v: seq<View>, categoryLabel: nat -> string): seq<View> {
    if ops == [] then v else LogicalRun(ops[1..], Logical(ops[0], v, categoryLabel), categoryLabel)
  }

  /** How many operations are finished after `k` stores. */
  ghost function Finished(m: Memory, ops: seq<Op>, grown: seq<seq<Frame>>, k: nat): (i: nat)
    requires |grown| == |ops| && LegalRun(m, ops, grown)
    ensures i <= |ops|
    decreases |ops|
  {
    if ops == [] then 0
    else
      var first := StoresOf(ops[0], m, grown[0]);
      if k < |first| then 0 else 1 + Finished(Run(m, first), ops[1..], grown[1..], k - |first|)
  }

  lemma RunPastFirst(m: Memory, first: seq<Store>, rest: seq<Store>, k: nat)
    requires |first| <= k <= |first| + |rest|
    ensures Run(m, (first + rest)[..k]) == Run(Run(m, first), rest[..k - |first|]) && first[..|first|] == first
  {
    assert (first + rest)[..k] == first + rest[..k - |first|];
    RunConcat(m, first, rest[..k - |first|]);
  }

  /**
   In every run of pushes, pops and OSR changes, suspended after any store, a sampler reads
   exactly the logical stack left by the operations finished so far.
   */
  lemma {:induction false} SampleIsLogical(m: Memory, ops: seq<Op>, grown: seq<seq<Frame>>, k: nat, categoryLabel: nat -> string)
    requires |grown| == |ops| && LegalRun(m, ops, grown) && GrowsRight(m, ops, grown, categoryLabel)
    requires k <= |Trace(m, ops, grown)|
    ensures var m' := Run(m, Trace(m, ops, grown)[..k]);
            && WellFormed(m')
            && Visible(m', categoryLabel)
               == LogicalRun(ops[..Finished(m, ops, grown, k)], Visible(m, categoryLabel), categoryLabel)
    decreases |ops|
  {
    hide Visible, Logical, StoresOf, Legal, GrowsIfFull;
    if ops != [] {
      var first := StoresOf(ops[0], m, grown[0]);
      var m1 := Run(m, first);
      var rest := Trace(m1, ops[1..], grown[1..]);
      var i := Finished(m, ops, grown, k);
      if k < |first| {
        assert (first + rest)[..k] == first[..k];
        SampleIsBeforeOrAfter(ops[0], m, grown[0], k, categoryLabel);
      } else {
        RunPastFirst(m, first, rest, k);
        hide Run;
        SampleIsBeforeOrAfter(ops[0], m, grown[0], |first|, categoryLabel);
        SampleIsLogical(m1, ops[1..], grown[1..], k - |first|, categoryLabel);
        assert ops[..i][1..] == ops[1..][..i - 1];
      }
    } else {
      assert Trace(m, ops, grown)[..k] == [];
    }
  }

  // ---------------------------------------------------------------------------
  // Why the order of the stores matters
  // ---------------------------------------------------------------------------

  /**
   The stores of a pop followed by the push of `f` into the same slot, in some order: `pre`
   before the decrement, `mid` between the decrement and the increment, `post` after it.
   */
  ghost function PopPushStores(n: nat, f: Frame, pre: seq<Field>, mid: seq<Field>, post: seq<Field>): seq<Store>
    requires n > 0
  {
    FieldStores(n - 1, pre, f) + [SetStackPointer(n - 1)] + FieldStores(n - 1, mid, f) + [SetStackPointer(n)]
      + FieldStores(n - 1, post, f)
  }

  /** A sampler reads the stack before the pop, the popped stack, or the stack after the push. */
  ghost predicate Consistent(m: Memory, m': Memory, f: Frame, categoryLabel: nat -> string)
    requires WellFormed(m) && m.stackPointer > 0
  {
    WellFormed(m') &&
    var before, now := Visible(m, categoryLabel), Visible(m', categoryLabel);
    var popped := before[..|before| - 1];
    now == before || now == popped || now == popped + [ViewOf(f, categoryLabel)]
  }

  /** The order of stores is safe: whatever is in memory, every sample is consistent. */
  ghost predicate SafeOrder(n: nat, f: Frame, pre: seq<Field>, mid: seq<Field>, post: seq<Field>, categoryLabel: nat -> string)
    requires n > 0
  {
    forall m, k :: WellFormed(m) && m.stackPointer == n && 0 <= k <= |PopPushStores(n, f, pre, mid, post)| ==>
      Consistent(m, Run(m, PopPushStores(n, f, pre, mid, post)[..k]), f, categoryLabel)
  }

  /** After all stores of any order, the slot holds the fields of `f` that were stored. */
  lemma PopPushState(m: Memory, n: nat, f: Frame, pre: seq<Field>, mid: seq<Field>, post: seq<Field>)
    requires WellFormed(m) && m.stackPointer == n && n > 0
    ensures Run(m, PopPushStores(n, f, pre, mid, post))
         == Memory(m.frames[n - 1 := Mix(m.frames[n - 1], FieldSet(pre + mid + post), f)], n)
  {
    hide FieldStores, Mix, FieldSet;
    var g := m.frames[n - 1];
    var a := FieldStores(n - 1, pre, f);
    FieldStoresMix(m, n - 1, pre, f);
    var m1 := Memory(m.frames[n - 1 := Mix(g, FieldSet(pre), f)], n - 1);
    RunAppend(m, a, SetStackPointer(n - 1));
    var b := a + [SetStackPointer(n - 1)];
    FieldStoresMix(m1, n - 1, mid, f);
    RunConcat(m, b, FieldStores(n - 1, mid, f));
    MixTwice(g, pre, mid, f);
    var m2 := Memory(m.frames[n - 1 := Mix(g, FieldSet(pre + mid), f)], n);
    assert m1.frames[n - 1 := Mix(g, FieldSet(pre + mid), f)] == m2.frames;
    var c := b + FieldStores(n - 1, mid, f);
    RunAppend(m, c, SetStackPointer(n));
    FieldStoresMix(m2, n - 1, post, f);
    RunConcat(m, c + [SetStackPointer(n)], FieldStores(n - 1, post, f));
    MixTwice(g, pre + mid, post, f);
    assert m2.frames[n - 1 := Mix(g, FieldSet(pre + mid + post), f)] == m.frames[n - 1 := Mix(g, FieldSet(pre + mid + post), f)];
  }

  lemma MixTwice(g: Frame, a: seq<Field>, b: seq<Field>, f: Frame)
    ensures Mix(Mix(g, FieldSet(a), f), FieldSet(b), f) == Mix(g, FieldSet(a + b), f)
  {
    assert FieldSet(a + b) == FieldSet(a) + FieldSet(b);
  }

  /** With the decrement first and the increment last, every sample is consistent. */
  lemma FieldsBetweenAreSafe(m: Memory, n: nat, f: Frame, mid: seq<Field>, k: nat, categoryLabel: nat -> string)
    requires WellFormed(m) && m.stackPointer == n && n > 0 && k <= |mid| + 2
    requires IsJsFrame(f) && FieldSet(mid) == FieldSet(JS_FIELDS)
    ensures Consistent(m, Run(m, ([SetStackPointer(n - 1)] + FieldStores(n - 1, mid, f) + [SetStackPointer(n)])[..k]), f, categoryLabel)
  {
    hide ViewOf, IsJsFrame, FieldSet, Mix, FieldStores;
    BetweenStates(m, n, f, mid, k);
    PopSample(m, categoryLabel);
    var m1 := m.(stackPointer := n - 1);
    if 1 <= k <= |mid| + 1 {
      HiddenStores(m1, n - 1, mid, f, k - 1, categoryLabel);
    } else if k == |mid| + 2 {
      AllFieldsStored(m.frames[n - 1], JS_FIELDS, f, categoryLabel);
      TopReplaced(m, Mix(m.frames[n - 1], FieldSet(mid), f), f, categoryLabel);
    }
  }

  /** The memory after each store of a decrement, field stores, and an increment. */
  lemma BetweenStates(m: Memory, n: nat, f: Frame, mid: seq<Field>, k: nat)
    requires WellFormed(m) && m.stackPointer == n && n > 0 && k <= |mid| + 2
    ensures var m1, body := m.(stackPointer := n - 1), FieldStores(n - 1, mid, f);
            Run(m, ([SetStackPointer(n - 1)] + body + [SetStackPointer(n)])[..k])
              == if k == 0 then m
                 else if k <= |mid| + 1 then Run(m1, body[..k - 1])
                 else Memory(m.frames[n - 1 := Mix(m.frames[n - 1], FieldSet(mid), f)], n)
  {
    hide Mix, FieldSet, FieldStores;
    var first, body := [SetStackPointer(n - 1)], FieldStores(n - 1, mid, f);
    var stores := first + body + [SetStackPointer(n)];
    var m1 := m.(stackPointer := n - 1);
    assert Run(m, first) == m1 by {
      RunAppend(m, [], SetStackPointer(n - 1));
      assert [] + first == first;
    }
    if k == 0 {
      assert stores[..k] == [];
    } else if k <= |mid| + 1 {
      assert stores[..k] == first + body[..k - 1];
      RunConcat(m, first, body[..k - 1]);
    } else {
      assert stores[..k] == (first + body) + [SetStackPointer(n)];
      RunConcat(m, first, body);
      RunAppend(m, first + body, SetStackPointer(n));
      FieldStoresMix(m1, n - 1, mid, f);
    }
  }

  /** Replacing the top frame by one that shows `f`. */
  lemma TopReplaced(m: Memory, top: Frame, f: Frame, categoryLabel: nat -> string)
    requires WellFormed(m) && m.stackPointer > 0 && ViewOf(top, categoryLabel) == ViewOf(f, categoryLabel)
    ensures var n := m.stackPointer;
            Visible(Memory(m.frames[n - 1 := top], n), categoryLabel)
              == Visible(m, categoryLabel)[..n - 1] + [ViewOf(f, categoryLabel)]
  {
    hide ViewOf;
  }

  /** A JS frame showing its own label, as `initJsFrame` writes it. */
  ghost predicate PlainJs(f: Frame) {
    IsJsFrame(f) && Bit(f.flags, LABEL_DETERMINED_BY_CATEGORY_PAIR) == 0
  }

  /** A plain JS frame that differs from `f` in every field. */
  ghost function Unlike(f: Frame): Frame {
    Frame(f.labelString + ['x'], f.dynamicString + 1, f.spOrScript + 1, f.pcOffset + 1, f.realmID + 1,
          if (f.flags / 8) % 2 == 1 then f.flags - 8 else f.flags + 8)
  }

  lemma UnlikeIsPlain(f: Frame)
    requires PlainJs(f)
    ensures PlainJs(Unlike(f))
  {
    FlagPowers();
    hide Pow2;
    BitThreeApart(f.flags);
  }

  /** Plain JS frames show all their fields. */
  lemma PlainViews(f: Frame, g: Frame, categoryLabel: nat -> string)
    requires PlainJs(f) && PlainJs(g)
    ensures ViewOf(f, categoryLabel) == ViewOf(g, categoryLabel) <==> f == g
  {
  }

  /** A frame with some but not all fields stored shows neither the old nor the new frame. */
  lemma TornFrame(f: Frame, s: set<Field>, categoryLabel: nat -> string)
    requires PlainJs(f) && (exists x :: x in s) && (exists x :: x !in s)
    ensures var u := Unlike(f);
            var torn := ViewOf(Mix(u, s, f), categoryLabel);
            torn != ViewOf(u, categoryLabel) && torn != ViewOf(f, categoryLabel)
  {
    UnlikeIsPlain(f);
    var u := Unlike(f);
    var t := Mix(u, s, f);
    assert PlainJs(t) by {
      assert t.flags == f.flags || t.flags == u.flags;
    }
    hide PlainJs, ViewOf;
    PlainViews(t, u, categoryLabel);
    PlainViews(t, f, categoryLabel);
    assert |f.labelString + ['x']| == |f.labelString| + 1;
    var x :| x in s;
    assert t != u by {
      match x { case LabelField => case DynamicStringField => case SpOrScriptField =>
                case PcOffsetField => case RealmIDField => case FlagsField => }
    }
    var y :| y !in s;
    assert t != f by {
      match y { case LabelField => case DynamicStringField => case SpOrScriptField =>
                case PcOffsetField => case RealmIDField => case FlagsField => }
    }
  }

  /** A memory on which a torn top frame is inconsistent. */
  lemma TornIsInconsistent(n: nat, f: Frame, s: set<Field>, stores: seq<Store>, categoryLabel: nat -> string)
    requires n > 0 && PlainJs(f) && (exists x :: x in s) && (exists x :: x !in s)
    requires var m := Memory(seq(n, i => Unlike(f)), n);
             Run(m, stores) == Memory(m.frames[n - 1 := Mix(m.frames[n - 1], s, f)], n)
    ensures !Consistent(Memory(seq(n, i => Unlike(f)), n), Run(Memory(seq(n, i => Unlike(f)), n), stores), f, categoryLabel)
  {
    var m := Memory(seq(n, i => Unlike(f)), n);
    var before, now := Visible(m, categoryLabel), Visible(Run(m, stores), categoryLabel);
    TornFrame(f, s, categoryLabel);
    hide ViewOf, Mix, PlainJs, Unlike;
    assert now[n - 1] == ViewOf(Mix(Unlike(f), s, f), categoryLabel);
    assert before[n - 1] == ViewOf(Unlike(f), categoryLabel);
    assert (before[..n - 1] + [ViewOf(f, categoryLabel)])[n - 1] == ViewOf(f, categoryLabel);
  }

  /**
   The two ordering requirements, and that nothing less will do: popping and then pushing a
   JS frame into the same slot is safe exactly when the decrement precedes all field stores
   and the increment follows them all. The field stores may be in any order.
   */
  lemma SafeOrderIff(n: nat, f: Frame, pre: seq<Field>, mid: seq<Field>, post: seq<Field>, categoryLabel: nat -> string)
    requires n > 0 && PlainJs(f) && multiset(pre + mid + post) == multiset(JS_FIELDS)
    ensures SafeOrder(n, f, pre, mid, post, categoryLabel) <==> pre == [] && post == []
  {
    if pre == [] && post == [] {
      FieldsBetweenSuffice(n, f, mid, categoryLabel);
    } else if pre != [] {
      EarlyStoreIsUnsafe(n, f, pre, mid, post, categoryLabel);
    } else {
      LateStoreIsUnsafe(n, f, pre, mid, post, categoryLabel);
    }
  }

  lemma FieldsBetweenSuffice(n: nat, f: Frame, mid: seq<Field>, categoryLabel: nat -> string)
    requires n > 0 && PlainJs(f) && multiset([] + mid + []) == multiset(JS_FIELDS)
    ensures SafeOrder(n, f, [], mid, [], categoryLabel)
  {
    hide ViewOf, IsJsFrame, Consistent, Visible, Run, FieldStores, FieldSet;
    assert [] + mid + [] == mid;
    SameFields(mid);
    NothingOutside(n, f, mid);
    forall m, k | WellFormed(m) && m.stackPointer == n && 0 <= k <= |PopPushStores(n, f, [], mid, [])|
      ensures Consistent(m, Run(m, PopPushStores(n, f, [], mid, [])[..k]), f, categoryLabel)
    {
      FieldsBetweenAreSafe(m, n, f, mid, k, categoryLabel);
    }
  }

  lemma SameFields(mid: seq<Field>)
    requires multiset(mid) == multiset(JS_FIELDS)
    ensures FieldSet(mid) == FieldSet(JS_FIELDS)
  {
    forall x ensures x in mid <==> x in JS_FIELDS {
      assert x in multiset(mid) <==> x in multiset(JS_FIELDS);
    }
  }

  lemma NothingOutside(n: nat, f: Frame, mid: seq<Field>)
    requires n > 0
    ensures PopPushStores(n, f, [], mid, []) == [SetStackPointer(n - 1)] + FieldStores(n - 1, mid, f) + [SetStackPointer(n)]
    ensures |PopPushStores(n, f, [], mid, [])| == |mid| + 2
  {
  }

  lemma EarlyStoreIsUnsafe(n: nat, f: Frame, pre: seq<Field>, mid: seq<Field>, post: seq<Field>, categoryLabel: nat -> string)
    requires n > 0 && PlainJs(f) && pre != []
    ensures !SafeOrder(n, f, pre, mid, post, categoryLabel)
  {
    hide ViewOf, PlainJs;
    var m := Memory(seq(n, i => Unlike(f)), n);
    var stores := PopPushStores(n, f, pre, mid, post);
    assert stores[..1] == FieldStores(n - 1, [pre[0]], f);
    FieldStoresMix(m, n - 1, [pre[0]], f);
    var s := FieldSet([pre[0]]);
    assert pre[0] in s;
    assert exists y :: y !in s by {
      var y := if pre[0] == LabelField then FlagsField else LabelField;
      assert y !in s;
    }
    TornIsInconsistent(n, f, s, stores[..1], categoryLabel);
  }

  lemma LateStoreIsUnsafe(n: nat, f: Frame, pre: seq<Field>, mid: seq<Field>, post: seq<Field>, categoryLabel: nat -> string)
    requires n > 0 && PlainJs(f) && post != [] && multiset(pre + mid + post) == multiset(JS_FIELDS)
    ensures !SafeOrder(n, f, pre, mid, post, categoryLabel)
  {
    hide ViewOf, PlainJs, Mix, FieldSet, SafeOrder, Consistent, PopPushStores, Run, Visible;
    var m := Memory(seq(n, i => Unlike(f)), n);
    var post', y := post[..|post| - 1], post[|post| - 1];
    var rest := pre + mid + post';
    var stores := PopPushStores(n, f, pre, mid, post);
    var k := |stores| - 1;
    PopPushFront(n, f, pre, mid, post);
    PopPushState(m, n, f, pre, mid, post');
    assert pre + mid + post == rest + [y];
    AllButLast(rest, y);
    TornIsInconsistent(n, f, FieldSet(rest), stores[..k], categoryLabel);
    UnsafeWitness(n, f, pre, mid, post, m, k, categoryLabel);
  }

  lemma PopPushFront(n: nat, f: Frame, pre: seq<Field>, mid: seq<Field>, post: seq<Field>)
    requires n > 0 && post != []
    ensures var stores := PopPushStores(n, f, pre, mid, post);
            stores != [] && stores[..|stores| - 1] == PopPushStores(n, f, pre, mid, post[..|post| - 1])
  {
    assert FieldStores(n - 1, post, f)[..|post| - 1] == FieldStores(n - 1, post[..|post| - 1], f);
  }

  lemma UnsafeWitness(n: nat, f: Frame, pre: seq<Field>, mid: seq<Field>, post: seq<Field>, m: Memory, k: nat,
                      categoryLabel: nat -> string)
    requires n > 0 && WellFormed(m) && m.stackPointer == n && k <= |PopPushStores(n, f, pre, mid, post)|
    requires !Consistent(m, Run(m, PopPushStores(n, f, pre, mid, post)[..k]), f, categoryLabel)
    ensures !SafeOrder(n, f, pre, mid, post, categoryLabel)
  {
    hide Consistent, PopPushStores, Run;
  }

  lemma AllButLast(rest: seq<Field>, y: Field)
    requires multiset(rest + [y]) == multiset(JS_FIELDS)
    ensures y !in FieldSet(rest) && exists x :: x in FieldSet(rest)
  {
    assert multiset(rest + [y])[y] == multiset(rest)[y] + 1;
    assert multiset(JS_FIELDS)[y] == 1;
    assert y !in multiset(rest);
    var x := if y == LabelField then FlagsField else LabelField;
    assert x in JS_FIELDS by {
      assert JS_FIELDS[0] == LabelField && JS_FIELDS[5] == FlagsField;
    }
    assert x in multiset(rest + [y]) && x in multiset(rest);
    assert x in rest && x in FieldSet(rest);
  }
}
