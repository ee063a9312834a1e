/**
 * Event translation of the SDL window: scancode lookup, and the step that
 * turns one native SDL event into the portable events the window delivers,
 * updating the window's key-chord map on key transitions.
 */
module Events {
  import opened Keymap

  type UInt8 = x: int | 0 <= x < 0x100
  type Int32 = x: int | -0x8000_0000 <= x < 0x8000_0000

  /** Looks a scancode up in the key table `keys`; codes below 4 and codes
      past the end of the table have no name. Never fails. */
  function ConvertKeyCode(keys: seq<Key>, key: Scancode): (k: Key)
    ensures key < 4 || key >= |keys| ==> k == Blank
    ensures 4 <= key < |keys| ==> k == keys[key]
  {
    if key >= |keys| || key < 4 then Blank else keys[key]
  }

  /** The lookup the window uses, on the initialised table. */
  function KeyName(code: Scancode): (k: Key)
    ensures code < 4 || code >= TableSize ==> k == Blank
  {
    ConvertKeyCode(Table(), code)
  }

  // The SDL window-event subtypes (SDL_WindowEventID).
  const WINDOWEVENT_NONE: UInt8 := 0
  const WINDOWEVENT_SHOWN: UInt8 := 1
  const WINDOWEVENT_HIDDEN: UInt8 := 2
  const WINDOWEVENT_EXPOSED: UInt8 := 3
  const WINDOWEVENT_MOVED: UInt8 := 4
  const WINDOWEVENT_RESIZED: UInt8 := 5
  const WINDOWEVENT_SIZE_CHANGED: UInt8 := 6
  const WINDOWEVENT_MINIMIZED: UInt8 := 7
  const WINDOWEVENT_MAXIMIZED: UInt8 := 8
  const WINDOWEVENT_RESTORED: UInt8 := 9
  const WINDOWEVENT_ENTER: UInt8 := 10
  const WINDOWEVENT_LEAVE: UInt8 := 11
  const WINDOWEVENT_FOCUS_GAINED: UInt8 := 12
  const WINDOWEVENT_FOCUS_LOST: UInt8 := 13
  const WINDOWEVENT_CLOSE: UInt8 := 14

  /** A native event, as PollEvent returns it. `Unhandled` stands for every
      event type the translation switch has no case for. */
  datatype NativeEvent =
    | KeyDown(scancode: Scancode)
    | KeyUp(scancode: Scancode)
    | MouseButton(pressed: bool, button: UInt8, x: Int32, y: Int32)
    | MouseMotion
    | MouseWheel
    | Quit
    | WindowEvent(event: UInt8, data1: Int32, data2: Int32)
    | Unhandled

  datatype Point = Point(x: int, y: int)

  /** A portable event of the window-driver interface. */
  datatype Event =
    | KeyDownEvent(key: Key)
    | KeyUpEvent(key: Key)
    | KeyTypedEvent(chord: string)
    | MouseButtonEvent(which: int, where: Point)
    | MouseEnteredEvent
    | MouseExitedEvent
    | ResizeEvent(width: int, height: int)
    | CloseEvent

  /** The map from key name to "held" that the window keeps. */
  type KeyChords = map<Key, bool>

  /** What one translation step emits, and the key-chord map after it. */
  datatype Step = Step(emitted: seq<Event>, keychords: KeyChords)

  /** 2 to the power n. */
  function Pow2(n: nat): (p: nat)
    ensures p >= 1
  {
    if n == 0 then 1 else 2 * Pow2(n - 1)
  }

  const MinInt64: int := -0x8000_0000_0000_0000

  /** `1 << b` on Go's 64-bit int: bit 63 is the sign bit, and a shift by 64
      or more leaves 0. */
  function ButtonMask(b: UInt8): (m: int)
    ensures b >= 64 ==> m == 0
    ensures b < 63 ==> m > 0
  {
    if b < 63 then Pow2(b) else if b == 63 then MinInt64 else 0
  }

  /** The portable events for a native window event; the log-only subtypes
      and unrecognised subtypes emit nothing. RESIZED puts Data1 into the
      height and Data2 into the width. */
  function WindowEvents(event: UInt8, data1: Int32, data2: Int32): (evs: seq<Event>)
    ensures |evs| <= 1
    ensures event == WINDOWEVENT_RESIZED ==> evs == [ResizeEvent(data2, data1)]
  {
    if event == WINDOWEVENT_ENTER then [MouseEnteredEvent]
    else if event == WINDOWEVENT_LEAVE then [MouseExitedEvent]
    else if event == WINDOWEVENT_RESIZED then [ResizeEvent(data2, data1)]
    else if event == WINDOWEVENT_CLOSE then [CloseEvent]
    else []
  }

  /** One pass of the translation switch. `construct` is the interface's
      chord construction, applied to the updated map. */
  function Translate(e: NativeEvent, keychords: KeyChords, construct: KeyChords -> string): (s: Step)
    ensures |s.emitted| <= 2
    ensures !IsKeyEvent(e) ==> s.keychords == keychords
  {
    match e
    case KeyDown(code) =>
      var k := KeyName(code);
      var held := keychords[k := true];
      Step([KeyDownEvent(k), KeyTypedEvent(construct(held))], held)
    case KeyUp(code) =>
      var k := KeyName(code);
      var held := keychords[k := false];
      Step([KeyUpEvent(k), KeyTypedEvent(construct(held))], held)
    case MouseButton(_, button, x, y) =>
      Step([MouseButtonEvent(ButtonMask(button), Point(x, y))], keychords)
    case MouseMotion => Step([], keychords)
    case MouseWheel => Step([], keychords)
    case Quit => Step([CloseEvent], keychords)
    case WindowEvent(event, data1, data2) => Step(WindowEvents(event, data1, data2), keychords)
    case Unhandled => Step([], keychords)
  }

  /** The translation of a finite run of polled events, in order. */
  function TranslateAll(es: seq<NativeEvent>, keychords: KeyChords, construct: KeyChords -> string): (s: Step)
  {
    if es == [] then Step([], keychords)
    else
      var before := TranslateAll(es[..|es| - 1], keychords, construct);
      var last := Translate(es[|es| - 1], before.keychords, construct);
      Step(before.emitted + last.emitted, last.keychords)
  }

  predicate IsKeyEvent(e: NativeEvent)
  {
    e.KeyDown? || e.KeyUp?
  }

  /** The most recent key transition of key `k` in `es`: Some(true) for a
      key-down, Some(false) for a key-up, None if there is none. */
  function LastTransition(es: seq<NativeEvent>, k: Key): (t: Option<bool>)
  {
    if es == [] then None
    else
      var e := es[|es| - 1];
      if IsKeyEvent(e) && KeyName(e.scancode) == k then Some(e.KeyDown?)
      else LastTransition(es[..|es| - 1], k)
  }

  datatype Option<T> = None | Some(value: T)

  //////////////////////////////////////////////////////////////////////
  // One step
  //////////////////////////////////////////////////////////////////////

  /** A key-down emits the key's name and then one chord event built from the
      map with that key held; only that entry of the map changes. */
  lemma KeyDownStep(code: Scancode, keychords: KeyChords, construct: KeyChords -> string)
    ensures var k := ConvertKeyCode(Table(), code);
            var s := Translate(KeyDown(code), keychords, construct);
            && s.emitted == [KeyDownEvent(k), KeyTypedEvent(construct(s.keychords))]
            && k in s.keychords && s.keychords[k]
            && s.keychords.Keys == keychords.Keys + {k}
            && forall k' :: k' in keychords && k' != k ==> s.keychords[k'] == keychords[k']
  {
  }

  /** A key-up emits the key's name and one chord event; the entry is set to
      false, not removed, and no other entry changes. */
  lemma KeyUpStep(code: Scancode, keychords: KeyChords, construct: KeyChords -> string)
    ensures var k := ConvertKeyCode(Table(), code);
            var s := Translate(KeyUp(code), keychords, construct);
            && s.emitted == [KeyUpEvent(k), KeyTypedEvent(construct(s.keychords))]
            && k in s.keychords && !s.keychords[k]
            && s.keychords.Keys == keychords.Keys + {k}
            && forall k' :: k' in keychords && k' != k ==> s.keychords[k'] == keychords[k']
  {
  }

  /** Events other than key transitions leave the key-chord map alone. */
  lemma NonKeyStepKeepsChords(e: NativeEvent, keychords: KeyChords, construct: KeyChords -> string)
    requires !IsKeyEvent(e)
    ensures Translate(e, keychords, construct).keychords == keychords
  {
  }

  /** A button press or release emits one button event with the bit of the
      button and the pointer position. */
  lemma MouseButtonStep(pressed: bool, b: UInt8, x: Int32, y: Int32, keychords: KeyChords, construct: KeyChords -> string)
    ensures Translate(MouseButton(pressed, b, x, y), keychords, construct).emitted
         == [MouseButtonEvent(ButtonMask(b), Point(x, y))]
  {
  }

  /** Quit and the close subtype each emit one close event; enter and leave
      emit the crossing events; resize swaps the axes as the code does. */
  lemma WindowAndQuitSteps(d1: Int32, d2: Int32, keychords: KeyChords, construct: KeyChords -> string)
    ensures Translate(Quit, keychords, construct).emitted == [CloseEvent]
    ensures Translate(WindowEvent(WINDOWEVENT_CLOSE, d1, d2), keychords, construct).emitted == [CloseEvent]
    ensures Translate(WindowEvent(WINDOWEVENT_ENTER, d1, d2), keychords, construct).emitted == [MouseEnteredEvent]
    ensures Translate(WindowEvent(WINDOWEVENT_LEAVE, d1, d2), keychords, construct).emitted == [MouseExitedEvent]
    ensures Translate(WindowEvent(WINDOWEVENT_RESIZED, d1, d2), keychords, construct).emitted
         == [ResizeEvent(d2, d1)]
  {
  }

  /** Motion, wheel, unhandled event types and every window subtype other
      than enter, leave, resized and close emit nothing. */
  lemma SilentSteps(e: NativeEvent, keychords: KeyChords, construct: KeyChords -> string)
    requires e.MouseMotion? || e.MouseWheel? || e.Unhandled?
          || (e.WindowEvent? && e.event !in {WINDOWEVENT_ENTER, WINDOWEVENT_LEAVE,
                                             WINDOWEVENT_RESIZED, WINDOWEVENT_CLOSE})
    ensures Translate(e, keychords, construct).emitted == []
  {
  }

  /** A step emits two events exactly for key transitions, and at most one
      otherwise. */
  lemma StepSize(e: NativeEvent, keychords: KeyChords, construct: KeyChords -> string)
    ensures |Translate(e, keychords, construct).emitted| == 2 <==> IsKeyEvent(e)
    ensures |Translate(e, keychords, construct).emitted| <= 2
  {
  }

  //////////////////////////////////////////////////////////////////////
  // Button masks
  //////////////////////////////////////////////////////////////////////

  lemma {:induction false} Pow2Monotone(m: nat, n: nat)
    requires m < n
    ensures Pow2(m) < Pow2(n)
    decreases n
  {
    if m < n - 1 {
      Pow2Monotone(m, n - 1);
    }
  }

  lemma {:induction false} Pow2Add(m: nat, n: nat)
    ensures Pow2(m + n) == Pow2(m) * Pow2(n)
    decreases n
  {
    if n > 0 {
      Pow2Add(m, n - 1);
    }
  }

  lemma Pow2Bound(n: nat)
    requires n < 63
    ensures Pow2(n) < -MinInt64
  {
    assert Pow2(10) == 1024 && Pow2(2) == 4;
    Pow2Add(10, 10);
    Pow2Add(20, 10);
    Pow2Add(30, 10);
    Pow2Add(40, 10);
    Pow2Add(50, 10);
    Pow2Add(60, 2);
    if n < 62 { Pow2Monotone(n, 62); }
  }

  /** Buttons 0..63 get pairwise distinct masks, and none of them is the
      empty mask. */
  lemma ButtonMasksDistinct(b1: UInt8, b2: UInt8)
    requires b1 < 64 && b2 < 64 && b1 != b2
    ensures ButtonMask(b1) != ButtonMask(b2)
    ensures ButtonMask(b1) != 0
  {
    if b1 < 63 && b2 < 63 {
      if b1 < b2 { Pow2Monotone(b1, b2); } else { Pow2Monotone(b2, b1); }
    }
  }

  lemma ButtonMaskRange(b: UInt8)
    ensures b < 63 ==> 0 < ButtonMask(b) < -MinInt64
    ensures b >= 64 ==> ButtonMask(b) == 0
  {
    if b < 63 { Pow2Bound(b); }
  }

  //////////////////////////////////////////////////////////////////////
  // Runs of events
  //////////////////////////////////////////////////////////////////////

  /** The map after one step, in one formula. */
  lemma StepChords(e: NativeEvent, keychords: KeyChords, construct: KeyChords -> string)
    ensures Translate(e, keychords, construct).keychords
         == if IsKeyEvent(e) then keychords[KeyName(e.scancode) := e.KeyDown?] else keychords
  {
  }

  /** The entry of `k` in a map, if any. */
  function Lookup(m: KeyChords, k: Key): (o: Option<bool>)
    ensures o.Some? <==> k in m
  {
    if k in m then Some(m[k]) else None
  }

  /** After a run of events, a key is in the map exactly when it was there
      before or the run holds a transition for it; its entry is the direction
      of its most recent transition, or the old entry if there was none. */
  lemma {:induction false} ChordsFollowLastTransition(es: seq<NativeEvent>, keychords: KeyChords,
                                                     construct: KeyChords -> string, k: Key)
    ensures Lookup(TranslateAll(es, keychords, construct).keychords, k)
         == if LastTransition(es, k).Some? then LastTransition(es, k) else Lookup(keychords, k)
    decreases |es|
  {
    if es != [] {
      var init, e := es[..|es| - 1], es[|es| - 1];
      var before := TranslateAll(init, keychords, construct);
      ChordsFollowLastTransition(init, keychords, construct, k);
      StepChords(e, before.keychords, construct);
      TranslateAllLast(es, keychords, construct);
      LastTransitionLast(es, k);
    }
  }

  lemma TranslateAllLast(es: seq<NativeEvent>, keychords: KeyChords, construct: KeyChords -> string)
    requires es != []
    ensures TranslateAll(es, keychords, construct).keychords
         == Translate(es[|es| - 1], TranslateAll(es[..|es| - 1], keychords, construct).keychords, construct).keychords
  {
  }

  lemma LastTransitionLast(es: seq<NativeEvent>, k: Key)
    requires es != []
    ensures LastTransition(es, k)
         == if IsKeyEvent(es[|es| - 1]) && KeyName(es[|es| - 1].scancode) == k
            then Some(es[|es| - 1].KeyDown?)
            else LastTransition(es[..|es| - 1], k)
  {
  }

  /** The run emits, in order, the steps' emissions; in particular it begins
      with the emission of its first event. */
  lemma {:induction false} TranslateAllAppend(es: seq<NativeEvent>, e: NativeEvent, keychords: KeyChords,
                                              construct: KeyChords -> string)
    ensures var before := TranslateAll(es, keychords, construct);
            TranslateAll(es + [e], keychords, construct)
              == Step(before.emitted + Translate(e, before.keychords, construct).emitted,
                      Translate(e, before.keychords, construct).keychords)
  {
    assert (es + [e])[..|es + [e]| - 1] == es;
  }

  /** Translating a run split anywhere into a and b is translating a,
      then translating b from the map a left, with the emissions in order. */
  lemma {:induction false} TranslateAllSplit(a: seq<NativeEvent>, b: seq<NativeEvent>, keychords: KeyChords,
                                             construct: KeyChords -> string)
    ensures var first := TranslateAll(a, keychords, construct);
            var second := TranslateAll(b, first.keychords, construct);
            TranslateAll(a + b, keychords, construct) == Step(first.emitted + second.emitted, second.keychords)
    decreases |b|
  {
    var first := TranslateAll(a, keychords, construct);
    if b == [] {
      assert a + b == a;
    } else {
      var b0 := b[..|b| - 1];
      var e := b[|b| - 1];
      assert b == b0 + [e];
      assert a + b == (a + b0) + [e];
      TranslateAllSplit(a, b0, keychords, construct);
      TranslateAllAppend(a + b0, e, keychords, construct);
      TranslateAllAppend(b0, e, first.keychords, construct);
      var second0 := TranslateAll(b0, first.keychords, construct);
      var last := Translate(e, second0.keychords, construct);
      assert first.emitted + (second0.emitted + last.emitted) == (first.emitted + second0.emitted) + last.emitted;
    }
  }

  /** Pressing and then releasing one key emits exactly four events: the
      key-down, a chord with the key held, the key-up, and a chord with the
      key released, and leaves the key's entry false. */
  lemma {:induction false} PressRelease(code: Scancode, keychords: KeyChords, construct: KeyChords -> string)
    ensures var k := KeyName(code);
            var s := TranslateAll([KeyDown(code), KeyUp(code)], keychords, construct);
            && s.emitted == [KeyDownEvent(k), KeyTypedEvent(construct(keychords[k := true])),
                             KeyUpEvent(k), KeyTypedEvent(construct(keychords[k := false]))]
            && s.keychords == keychords[k := false]
  {
    var k := KeyName(code);
    TranslateAllAppend([], KeyDown(code), keychords, construct);
    TranslateAllAppend([KeyDown(code)], KeyUp(code), keychords, construct);
    assert [KeyDown(code)] + [KeyUp(code)] == [KeyDown(code), KeyUp(code)];
    assert keychords[k := true][k := false] == keychords[k := false];
  }

  /** The number of portable events a run emits: two per key transition,
      one per other event with a portable counterpart. */
  function EmitCount(es: seq<NativeEvent>): (n: nat)
  {
    if es == [] then 0
    else EmitCount(es[..|es| - 1]) + |Translate(es[|es| - 1], map[], (_ => "")).emitted|
  }

  lemma {:induction false} EmitCountIndependent(e: NativeEvent, m1: KeyChords, m2: KeyChords,
                                                c1: KeyChords -> string, c2: KeyChords -> string)
    ensures |Translate(e, m1, c1).emitted| == |Translate(e, m2, c2).emitted|
  {
  }

  lemma {:induction false} TranslateAllLength(es: seq<NativeEvent>, keychords: KeyChords, construct: KeyChords -> string)
    ensures |TranslateAll(es, keychords, construct).emitted| == EmitCount(es)
    decreases |es|
  {
    if es != [] {
      var before := TranslateAll(es[..|es| - 1], keychords, construct);
      TranslateAllLength(es[..|es| - 1], keychords, construct);
      EmitCountIndependent(es[|es| - 1], before.keychords, map[], construct, _ => "");
    }
  }
}
