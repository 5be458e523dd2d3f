/** What the host is sent, told from the client's events alone (src/input.rs). */
module InputHistories {
  import opened Common
  import opened InputEvents
  import opened HeldInput

  // ---------- what is held ----------

  /** The last event of a key since everything was last released. */
  function LastOfKey(steps: seq<InputStep>, code: nat): Option<bool> {
    if steps == [] then None else
      match steps[|steps| - 1]
      case ReleaseEverything(_, _) => None
      case Receive(Key(c, pressed)) => if c == code then Some(pressed) else LastOfKey(steps[..|steps| - 1], code)
      case _ => LastOfKey(steps[..|steps| - 1], code)
  }

  function LastOfButton(steps: seq<InputStep>, b: MouseButton): Option<bool> {
    if steps == [] then None else
      match steps[|steps| - 1]
      case ReleaseEverything(_, _) => None
      case Receive(PointerButton(c, pressed)) => if c == b then Some(pressed) else LastOfButton(steps[..|steps| - 1], b)
      case _ => LastOfButton(steps[..|steps| - 1], b)
  }

  /** A key is down on the host exactly when there is a keyboard, its code is in range and
      its last event, since everything was last released, was a press. */
  lemma KeyDownIff(keyboard: bool, steps: seq<InputStep>, code: nat)
    requires AfterInput(keyboard, steps).Some?
    ensures code in HostAfter(AfterInput(keyboard, steps).value.1).keys
            <==> keyboard && 0 < code <= 767 && LastOfKey(steps, code) == Some(true)
  {
    HostMirrorsHeld(keyboard, steps);
    HeldIffPressed(keyboard, steps, code);
  }

  lemma {:induction false} HeldIffPressed(keyboard: bool, steps: seq<InputStep>, code: nat)
    requires AfterInput(keyboard, steps).Some?
    ensures code in AfterInput(keyboard, steps).value.0.keys
            <==> keyboard && 0 < code <= 767 && LastOfKey(steps, code) == Some(true)
  {
    if steps != [] { HeldIffPressed(keyboard, steps[..|steps| - 1], code); }
  }

  /** A button is down on the host exactly when its last event, since everything was last
      released, was a press. */
  lemma ButtonDownIff(keyboard: bool, steps: seq<InputStep>, b: MouseButton)
    requires AfterInput(keyboard, steps).Some?
    ensures ButtonCode(b) in HostAfter(AfterInput(keyboard, steps).value.1).buttons
            <==> LastOfButton(steps, b) == Some(true)
  {
    HostMirrorsHeld(keyboard, steps);
    ButtonHeldIff(keyboard, steps, b);
  }

  /** The codes of src/protocol.rs, counted from `BTN_LEFT`: left, right, middle. */
  function ButtonCode(b: MouseButton): nat {
    272 + (if b.Left? then 0 else if b.Right? then 1 else if b.Middle? then 2 else if b.Back? then 3 else 4)
  }

  lemma ButtonCodes(b: MouseButton, c: MouseButton)
    ensures b.EvdevCode() == ButtonCode(b) && (ButtonCode(b) == ButtonCode(c) ==> b == c)
  {}

  lemma {:induction false} ButtonHeldIff(keyboard: bool, steps: seq<InputStep>, b: MouseButton)
    requires AfterInput(keyboard, steps).Some?
    ensures ButtonCode(b) in AfterInput(keyboard, steps).value.0.buttons <==> LastOfButton(steps, b) == Some(true)
  {
    if steps != [] {
      ButtonHeldIff(keyboard, steps[..|steps| - 1], b);
      var step := steps[|steps| - 1];
      if step.Receive? && step.event.PointerButton? { ButtonCodes(step.event.button, b); }
    }
  }

  /** The modifiers the host was last told: bit 0 while a shift key is held, 2 a control
      key, 3 alt, 6 a logo key, 7 the other alt; bits 1 and 4 after an odd number of
      presses of the two lock keys; and no other bit. */
  lemma ModifiersAreHeldKeys(keyboard: bool, steps: seq<InputStep>)
    requires AfterInput(keyboard, steps).Some?
    ensures var (h, sent) := AfterInput(keyboard, steps).value;
            var (down, locked) := HostAfter(sent).mods;
            && (down & 1 != 0 <==> 42 in h.keys || 54 in h.keys)
            && (down & 4 != 0 <==> 29 in h.keys || 97 in h.keys)
            && (down & 8 != 0 <==> 56 in h.keys) && (down & 128 != 0 <==> 100 in h.keys)
            && (down & 64 != 0 <==> 125 in h.keys || 126 in h.keys)
            && down & 0xFFFF_FF32 == 0 && locked & 0xFFFF_FFED == 0
            && (locked & 2 != 0 <==> Presses(sent, 58) % 2 == 1)
            && (locked & 16 != 0 <==> Presses(sent, 69) % 2 == 1)
  {
    HostMirrorsHeld(keyboard, steps);
    var (h, sent) := AfterInput(keyboard, steps).value;
    HeldBits(42 in h.keys || 54 in h.keys, 29 in h.keys || 97 in h.keys, 56 in h.keys,
             100 in h.keys, 125 in h.keys || 126 in h.keys);
    LockedBits(Odd(Presses(sent, 58)), Odd(Presses(sent, 69)));
  }

  lemma HeldBits(shift: bool, ctrl: bool, alt: bool, altgr: bool, logo: bool)
    ensures var bits := Union(shift, ctrl, alt, altgr, logo);
            && (bits & 1 != 0 <==> shift) && (bits & 4 != 0 <==> ctrl) && (bits & 8 != 0 <==> alt)
            && (bits & 128 != 0 <==> altgr) && (bits & 64 != 0 <==> logo) && bits & 0xFFFF_FF32 == 0
  {}

  lemma LockedBits(caps: bool, num: bool)
    ensures var bits := LockBits(caps, num);
            (bits & 2 != 0 <==> caps) && (bits & 16 != 0 <==> num) && bits & 0xFFFF_FFED == 0
  {}

  // ---------- where the pointer goes and how far it scrolls ----------

  function Gather<A, T>(list: seq<A>, of: A -> seq<T>): seq<T> {
    if list == [] then [] else Gather(list[..|list| - 1], of) + of(list[|list| - 1])
  }

  lemma {:induction false} GatherConcat<A, T>(a: seq<A>, b: seq<A>, of: A -> seq<T>)
    ensures Gather(a + b, of) == Gather(a, of) + Gather(b, of)
    decreases |b|
  {
    if b == [] {
      assert a + b == a;
    } else {
      var rest := b[..|b| - 1];
      assert (a + b)[..|a + b| - 1] == a + rest;
      GatherConcat(a, rest, of);
    }
  }

  lemma {:induction false} NothingGathered<A, T>(list: seq<A>, of: A -> seq<T>)
    requires forall k :: 0 <= k < |list| ==> of(list[k]) == []
    ensures Gather(list, of) == []
  {
    if list != [] { NothingGathered(list[..|list| - 1], of); }
  }

  function MotionOf(e: HostEvent): seq<(nat, nat)> { if e.Motion? then [(e.x, e.y)] else [] }

  function VerticalOf(e: HostEvent): seq<int> { if e.Axis? && e.vertical then [e.delta] else [] }

  function HorizontalOf(e: HostEvent): seq<int> { if e.Axis? && !e.vertical then [e.delta] else [] }

  function MotionIn(step: InputStep): seq<(nat, nat)> {
    if step.Receive? && step.event.PointerMotion? then [(step.event.x, step.event.y)] else []
  }

  function VerticalIn(step: InputStep): seq<int> {
    if step.Receive? && step.event.PointerAxis? && step.event.dy != 0 then [step.event.dy] else []
  }

  function HorizontalIn(step: InputStep): seq<int> {
    if step.Receive? && step.event.PointerAxis? && step.event.dx != 0 then [step.event.dx] else []
  }

  predicate Unpointed(e: HostEvent) { !e.Motion? && !e.Axis? }

  lemma ReleasesAreUnpointed(h: Held, keyboard: bool, keys: seq<nat>, buttons: seq<nat>)
    ensures forall k :: 0 <= k < |Released(h, keyboard, keys, buttons)| ==> Unpointed(Released(h, keyboard, keys, buttons)[k])
  {
    ReleasesRelease(keys);
    ReleasesRelease(buttons);
  }

  function OfAxis<T>(vertical: bool, delta: int, of: HostEvent -> seq<T>): seq<T> {
    if delta != 0 then of(Axis(vertical, delta)) else []
  }

  lemma OneGathered<T>(e: HostEvent, of: HostEvent -> seq<T>)
    ensures Gather([e], of) == of(e)
  {
    assert [e][..0] == [];
  }

  lemma AxisGathered<T>(vertical: bool, delta: int, of: HostEvent -> seq<T>)
    ensures Gather(AxisEvents(vertical, delta), of) == OfAxis(vertical, delta, of)
  {
    if delta != 0 { OneGathered(Axis(vertical, delta), of); }
  }

  lemma Enclosed<T>(first: HostEvent, v: seq<HostEvent>, z: seq<HostEvent>, last: HostEvent, of: HostEvent -> seq<T>)
    requires of(first) == [] && of(last) == []
    ensures Gather([first] + v + z + [last], of) == Gather(v, of) + Gather(z, of)
  {
    OneGathered(first, of);
    OneGathered(last, of);
    GatherConcat([first], v, of);
    GatherConcat([first] + v, z, of);
    GatherConcat([first] + v + z, [last], of);
  }

  lemma ScrollGathered<T>(dx: int, dy: int, of: HostEvent -> seq<T>)
    requires of(AxisSource) == [] && of(PointerFrame) == []
    ensures Gather([AxisSource] + AxisEvents(true, dy) + AxisEvents(false, dx) + [PointerFrame], of)
         == OfAxis(true, dy, of) + OfAxis(false, dx, of)
  {
    Enclosed(AxisSource, AxisEvents(true, dy), AxisEvents(false, dx), PointerFrame, of);
    AxisGathered(true, dy, of);
    AxisGathered(false, dx, of);
  }

  lemma MotionGathered<T>(e: HostEvent, of: HostEvent -> seq<T>)
    requires of(PointerFrame) == []
    ensures Gather([e, PointerFrame], of) == of(e)
  {
    assert [e, PointerFrame] == [e] + [PointerFrame];
    OneGathered(e, of);
    OneGathered(PointerFrame, of);
    GatherConcat([e], [PointerFrame], of);
  }

  lemma OthersAreUnpointed(h: Held, keyboard: bool, step: InputStep)
    requires step.Receive? ==> step.event.PointerButton? || step.event.Key?
    ensures forall k :: 0 <= k < |Taken(h, keyboard, step).1| ==> Unpointed(Taken(h, keyboard, step).1[k])
  {
    if step.ReleaseEverything? { ReleasesAreUnpointed(h, keyboard, step.keys, step.buttons); }
  }

  /** What one step sends, seen through a function that looks at motions and axes only. */
  lemma StepGathered<T>(h: Held, keyboard: bool, step: InputStep, of: HostEvent -> seq<T>)
    requires forall e :: Unpointed(e) ==> of(e) == []
    ensures Gather(Taken(h, keyboard, step).1, of)
         == if step.Receive? && step.event.PointerMotion? then of(Motion(step.event.x, step.event.y))
            else if step.Receive? && step.event.PointerAxis? then
              OfAxis(true, step.event.dy, of) + OfAxis(false, step.event.dx, of)
            else []
  {
    if step.Receive? && step.event.PointerMotion? {
      MotionGathered(Motion(step.event.x, step.event.y), of);
    } else if step.Receive? && step.event.PointerAxis? {
      ScrollGathered(step.event.dx, step.event.dy, of);
    } else {
      OthersAreUnpointed(h, keyboard, step);
      NothingGathered(Taken(h, keyboard, step).1, of);
    }
  }

  lemma StepMoves(h: Held, keyboard: bool, step: InputStep)
    ensures Gather(Taken(h, keyboard, step).1, MotionOf) == MotionIn(step)
  {
    StepGathered(h, keyboard, step, MotionOf);
  }

  lemma StepScrolls(h: Held, keyboard: bool, step: InputStep)
    ensures Gather(Taken(h, keyboard, step).1, VerticalOf) == VerticalIn(step)
  {
    StepGathered(h, keyboard, step, VerticalOf);
  }

  lemma StepScrollsAcross(h: Held, keyboard: bool, step: InputStep)
    ensures Gather(Taken(h, keyboard, step).1, HorizontalOf) == HorizontalIn(step)
  {
    StepGathered(h, keyboard, step, HorizontalOf);
  }

  /** Over every run the host is moved to exactly the client's positions and scrolled by
      exactly its nonzero distances, each axis with its own, in order. */
  lemma {:induction false} PointerFollows(keyboard: bool, steps: seq<InputStep>)
    requires AfterInput(keyboard, steps).Some?
    ensures var sent := AfterInput(keyboard, steps).value.1;
            && Gather(sent, MotionOf) == Gather(steps, MotionIn)
            && Gather(sent, VerticalOf) == Gather(steps, VerticalIn)
            && Gather(sent, HorizontalOf) == Gather(steps, HorizontalIn)
  {
    if steps != [] {
      var before, step := steps[..|steps| - 1], steps[|steps| - 1];
      PointerFollows(keyboard, before);
      var (h, sent) := AfterInput(keyboard, before).value;
      var more := Taken(h, keyboard, step).1;
      StepMoves(h, keyboard, step);
      StepScrolls(h, keyboard, step);
      StepScrollsAcross(h, keyboard, step);
      GatherConcat(sent, more, MotionOf);
      GatherConcat(sent, more, VerticalOf);
      GatherConcat(sent, more, HorizontalOf);
    }
  }

  // ---------- groups of pointer events ----------

  /** A pointer event has been sent since the last frame of the pointer, and whether the
      source of the axes has been. */
  datatype Group = Group(open: bool, sourced: bool)

  const CLOSED := Group(false, false)

  function Grouping(g: Group, e: HostEvent): Group {
    match e
    case PointerFrame => CLOSED
    case AxisSource => Group(true, true)
    case Motion(_, _) => g.(open := true)
    case ButtonEvent(_, _) => g.(open := true)
    case Axis(_, _) => g.(open := true)
    case _ => g
  }

  /** An axis follows its source, and only a group with an event is closed. */
  predicate Proper(g: Group, e: HostEvent) {
    (e.Axis? ==> g.sourced) && (e.PointerFrame? ==> g.open) && (e.KeyEvent? || e.Modifiers? ==> !g.open)
  }

  function Grouped(g: Group, sent: seq<HostEvent>): Group
    decreases sent
  {
    if sent == [] then g else Grouped(Grouping(g, sent[0]), sent[1..])
  }

  predicate WellGrouped(g: Group, sent: seq<HostEvent>)
    decreases sent
  {
    sent == [] || (Proper(g, sent[0]) && WellGrouped(Grouping(g, sent[0]), sent[1..]))
  }

  lemma {:induction false} GroupedConcat(g: Group, a: seq<HostEvent>, b: seq<HostEvent>)
    ensures Grouped(g, a + b) == Grouped(Grouped(g, a), b)
    ensures WellGrouped(g, a + b) <==> WellGrouped(g, a) && WellGrouped(Grouped(g, a), b)
    decreases a
  {
    if a == [] {
      assert a + b == b;
    } else {
      assert (a + b)[1..] == a[1..] + b;
      GroupedConcat(Grouping(g, a[0]), a[1..], b);
    }
  }

  predicate Whole(sent: seq<HostEvent>) { WellGrouped(CLOSED, sent) && Grouped(CLOSED, sent) == CLOSED }

  lemma WholeConcat(a: seq<HostEvent>, b: seq<HostEvent>)
    requires Whole(a) && Whole(b)
    ensures Whole(a + b)
  {
    GroupedConcat(CLOSED, a, b);
  }

  lemma {:induction false} KeyReleasesWhole(keys: seq<nat>)
    ensures Whole(KeyReleases(keys))
  {
    if keys != [] {
      KeyReleasesWhole(keys[1..]);
      WholeConcat([KeyEvent(keys[0], false)], KeyReleases(keys[1..]));
    }
  }

  lemma {:induction false} ButtonReleasesGrouped(g: Group, buttons: seq<nat>)
    requires !g.sourced
    ensures WellGrouped(g, ButtonReleases(buttons))
    ensures Grouped(g, ButtonReleases(buttons)) == Group(g.open || buttons != [], false)
    decreases buttons
  {
    if buttons != [] {
      ButtonReleasesGrouped(g.(open := true), buttons[1..]);
      assert ButtonReleases(buttons)[1..] == ButtonReleases(buttons[1..]);
    }
  }

  lemma ReleasedWhole(h: Held, keyboard: bool, keys: seq<nat>, buttons: seq<nat>)
    ensures Whole(Released(h, keyboard, keys, buttons))
  {
    var mods := if keys != [] then [Modifiers(0, h.locked)] else [];
    var frame := if buttons != [] then [PointerFrame] else [];
    KeyReleasesWhole(keys);
    WholeConcat(KeyReleases(keys), mods);
    ButtonReleasesGrouped(CLOSED, buttons);
    GroupedConcat(CLOSED, ButtonReleases(buttons), frame);
    assert Whole(ButtonReleases(buttons) + frame);
    WholeConcat(if keyboard then KeyReleases(keys) + mods else [], ButtonReleases(buttons) + frame);
  }

  lemma AxisInGroup(vertical: bool, delta: int)
    ensures var g, axis := Group(true, true), AxisEvents(vertical, delta); WellGrouped(g, axis) && Grouped(g, axis) == g
  {}

  lemma ScrollWhole(dx: int, dy: int)
    ensures Whole([AxisSource] + AxisEvents(true, dy) + AxisEvents(false, dx) + [PointerFrame])
  {
    var g, v, z := Group(true, true), AxisEvents(true, dy), AxisEvents(false, dx);
    AxisInGroup(true, dy);
    AxisInGroup(false, dx);
    GroupedConcat(CLOSED, [AxisSource], v);
    GroupedConcat(CLOSED, [AxisSource] + v, z);
    GroupedConcat(CLOSED, [AxisSource] + v + z, [PointerFrame]);
  }

  lemma StepIsWhole(h: Held, keyboard: bool, step: InputStep)
    ensures Whole(Taken(h, keyboard, step).1)
  {
    var more := Taken(h, keyboard, step).1;
    match step
    case ReleaseEverything(keys, buttons) => ReleasedWhole(h, keyboard, keys, buttons);
    case Receive(PointerAxis(dx, dy)) => ScrollWhole(dx, dy);
    case Receive(PointerMotion(x, y)) => WholeConcat([], more);
    case Receive(PointerButton(_, _)) => WholeConcat([], more);
    case Receive(Key(_, _)) => WholeConcat([], more);
  }

  /** Over every run, each pointer event is closed by a frame before anything else is sent,
      no frame is empty, and axes follow their source. */
  lemma {:induction false} PointerIsGrouped(keyboard: bool, steps: seq<InputStep>)
    requires AfterInput(keyboard, steps).Some?
    ensures Whole(AfterInput(keyboard, steps).value.1)
  {
    if steps != [] {
      var before, step := steps[..|steps| - 1], steps[|steps| - 1];
      PointerIsGrouped(keyboard, before);
      var (h, sent) := AfterInput(keyboard, before).value;
      StepIsWhole(h, keyboard, step);
      WholeConcat(sent, Taken(h, keyboard, step).1);
    }
  }

  // ---------- modifiers ----------

  /** Modifiers are told right after a key. */
  predicate AfterKeys(sent: seq<HostEvent>) {
    forall k :: 0 <= k < |sent| && sent[k].Modifiers? ==> k > 0 && sent[k - 1].KeyEvent?
  }

  lemma AfterKeysConcat(a: seq<HostEvent>, b: seq<HostEvent>)
    requires AfterKeys(a) && AfterKeys(b)
    ensures AfterKeys(a + b)
  {}

  lemma StepTellsAfterKeys(h: Held, keyboard: bool, step: InputStep)
    ensures AfterKeys(Taken(h, keyboard, step).1)
  {
    if step.ReleaseEverything? {
      ReleasesRelease(step.keys);
      ReleasesRelease(step.buttons);
      KeyReleaseCount(step.keys);
    }
  }

  lemma {:induction false} KeyReleaseCount(keys: seq<nat>)
    ensures |KeyReleases(keys)| == |keys|
  {
    if keys != [] { KeyReleaseCount(keys[1..]); }
  }

  /** Over every run, the modifiers are told after the key that changes them, never before. */
  lemma {:induction false} ModifiersFollowKeys(keyboard: bool, steps: seq<InputStep>)
    requires AfterInput(keyboard, steps).Some?
    ensures AfterKeys(AfterInput(keyboard, steps).value.1)
  {
    if steps != [] {
      var before, step := steps[..|steps| - 1], steps[|steps| - 1];
      ModifiersFollowKeys(keyboard, before);
      var (h, sent) := AfterInput(keyboard, before).value;
      StepTellsAfterKeys(h, keyboard, step);
      AfterKeysConcat(sent, Taken(h, keyboard, step).1);
    }
  }
}
