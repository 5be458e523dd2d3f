/** What the remote client holds down, and the events forwarded to the host (`HeldState`
    and `Injector` in src/input.rs). */
module HeldInput {
  import opened Common
  import opened InputEvents

  const MOD_SHIFT: bv32 := 1
  const MOD_LOCK: bv32 := 2
  const MOD_CTRL: bv32 := 4
  const MOD_ALT: bv32 := 8
  const MOD_NUM: bv32 := 16
  const MOD_LOGO: bv32 := 64
  const MOD_ALTGR: bv32 := 128

  const KEY_CAPSLOCK: nat := 58
  const KEY_NUMLOCK: nat := 69
  const KEY_MAX: nat := 0x2ff

  function ModifierBit(code: nat): bv32 {
    if code == 42 || code == 54 then MOD_SHIFT
    else if code == 29 || code == 97 then MOD_CTRL
    else if code == 56 then MOD_ALT
    else if code == 100 then MOD_ALTGR
    else if code == 125 || code == 126 then MOD_LOGO
    else 0
  }

  function Flag(on: bool, bit: bv32): bv32 { if on then bit else 0 }

  /** The modifiers of a set of held keys, bit by bit. */
  function Depressed(keys: set<nat>): bv32 {
    Union(42 in keys || 54 in keys, 29 in keys || 97 in keys, 56 in keys, 100 in keys, 125 in keys || 126 in keys)
  }

  function Union(shift: bool, ctrl: bool, alt: bool, altgr: bool, logo: bool): bv32 {
    Flag(shift, MOD_SHIFT) | Flag(ctrl, MOD_CTRL) | Flag(alt, MOD_ALT) | Flag(altgr, MOD_ALTGR) | Flag(logo, MOD_LOGO)
  }

  /** Some held key maps to the bit. */
  ghost predicate Holds(keys: set<nat>, bit: bv32) {
    exists k: nat :: k in keys && ModifierBit(k) == bit
  }

  lemma KeysOfModifiers(keys: set<nat>)
    ensures Holds(keys, MOD_SHIFT) <==> 42 in keys || 54 in keys
    ensures Holds(keys, MOD_CTRL) <==> 29 in keys || 97 in keys
    ensures Holds(keys, MOD_ALT) <==> 56 in keys
    ensures Holds(keys, MOD_ALTGR) <==> 100 in keys
    ensures Holds(keys, MOD_LOGO) <==> 125 in keys || 126 in keys
  {}

  lemma BitsOfUnion(shift: bool, ctrl: bool, alt: bool, altgr: bool, logo: bool)
    ensures var bits := Union(shift, ctrl, alt, altgr, logo);
            && (bits & MOD_SHIFT != 0 <==> shift) && (bits & MOD_CTRL != 0 <==> ctrl)
            && (bits & MOD_ALT != 0 <==> alt) && (bits & MOD_ALTGR != 0 <==> altgr) && (bits & MOD_LOGO != 0 <==> logo)
  {}

  /** A modifier bit is set exactly while some key mapping to it is held. */
  lemma ModifierIff(keys: set<nat>, code: nat)
    requires ModifierBit(code) != 0
    ensures Depressed(keys) & ModifierBit(code) != 0 <==> Holds(keys, ModifierBit(code))
  {
    KeysOfModifiers(keys);
    BitsOfUnion(42 in keys || 54 in keys, 29 in keys || 97 in keys, 56 in keys, 100 in keys, 125 in keys || 126 in keys);
  }

  /** The fold of the modifier bits may take the keys in any order. */
  lemma OneMoreKey(keys: set<nat>, k: nat)
    ensures Depressed(keys + {k}) == Depressed(keys) | ModifierBit(k)
  {
    UnionWith(42 in keys || 54 in keys, 29 in keys || 97 in keys, 56 in keys, 100 in keys, 125 in keys || 126 in keys);
    if ModifierBit(k) == 0 { OrZero(Depressed(keys)); }
  }

  lemma UnionWith(shift: bool, ctrl: bool, alt: bool, altgr: bool, logo: bool)
    ensures Union(shift, ctrl, alt, altgr, logo) | MOD_SHIFT == Union(true, ctrl, alt, altgr, logo)
    ensures Union(shift, ctrl, alt, altgr, logo) | MOD_CTRL == Union(shift, true, alt, altgr, logo)
    ensures Union(shift, ctrl, alt, altgr, logo) | MOD_ALT == Union(shift, ctrl, true, altgr, logo)
    ensures Union(shift, ctrl, alt, altgr, logo) | MOD_ALTGR == Union(shift, ctrl, alt, true, logo)
    ensures Union(shift, ctrl, alt, altgr, logo) | MOD_LOGO == Union(shift, ctrl, alt, altgr, true)
  {}

  lemma OrZero(a: bv32)
    ensures a | 0 == a
  {}

  lemma NoKeysNoModifiers()
    ensures Depressed({}) == 0
  {}

  // ---------- one event ----------

  datatype Held = Held(keys: set<nat>, buttons: set<nat>, locked: bv32)

  const NOTHING_HELD := Held({}, {}, 0)

  datatype KeyAction = Drop | Forwarded(mods: Option<(bv32, bv32)>)

  predicate Accepts(h: Held, code: nat, pressed: bool) {
    0 < code <= KEY_MAX && (pressed <==> code !in h.keys)
  }

  function Toggled(locked: bv32, code: nat): bv32 {
    if code == KEY_CAPSLOCK then locked ^ MOD_LOCK else if code == KEY_NUMLOCK then locked ^ MOD_NUM else locked
  }

  /** An accepted key event. */
  function KeyHeld(h: Held, code: nat, pressed: bool): Held {
    if pressed then h.(keys := h.keys + {code}, locked := Toggled(h.locked, code)) else h.(keys := h.keys - {code})
  }

  function Mods(h: Held): (bv32, bv32) { (Depressed(h.keys), h.locked) }

  /** Each held thing once. */
  ghost predicate Names(list: seq<nat>, held: set<nat>) {
    NoDuplicates(list) && forall k :: k in list <==> k in held
  }

  class HeldState {
    var keys: set<nat>
    var buttons: set<nat>
    var locked: bv32

    function Abstract(): Held
      reads this
    {
      Held(keys, buttons, locked)
    }

    constructor ()
      ensures Abstract() == NOTHING_HELD
    {
      keys, buttons, locked := {}, {}, 0;
    }

    method Key(code: nat, pressed: bool) returns (action: KeyAction)
      modifies this
      ensures var before := old(Abstract());
              if Accepts(before, code, pressed) then
                && Abstract() == KeyHeld(before, code, pressed)
                && action == Forwarded(if Mods(Abstract()) != Mods(before) then Some(Mods(Abstract())) else None)
              else Abstract() == before && action == Drop
    {
      if code == 0 || code > KEY_MAX {
        return Drop;
      }
      var lockedBefore := locked;
      var depressedBefore := DepressedMask();
      var changed := Change(code, pressed);
      if !changed {
        return Drop;
      }
      if pressed {
        locked := Toggled(locked, code);
      }
      var depressedAfter := DepressedMask();
      action := Forwarded(if (depressedAfter, locked) != (depressedBefore, lockedBefore)
                          then Some((depressedAfter, locked)) else None);
    }

    /** Inserts or removes a key; false if that changes nothing. */
    method Change(code: nat, pressed: bool) returns (changed: bool)
      modifies this`keys
      ensures changed <==> (pressed <==> code !in old(keys))
      ensures keys == if pressed then old(keys) + {code} else old(keys) - {code}
      ensures !changed ==> keys == old(keys)
    {
      changed := pressed == (code !in keys);
      keys := if pressed then keys + {code} else keys - {code};
    }

    /** False if redundant. */
    method Button(code: nat, pressed: bool) returns (changed: bool)
      modifies this
      ensures changed <==> (pressed <==> code !in old(buttons))
      ensures Abstract() == old(Abstract()).(buttons := if pressed then old(buttons) + {code} else old(buttons) - {code})
    {
      changed := pressed == (code !in buttons);
      buttons := if pressed then buttons + {code} else buttons - {code};
    }

    /** Drains what is held; locks are kept. */
    method ReleaseAll() returns (heldKeys: seq<nat>, heldButtons: seq<nat>)
      modifies this
      ensures Names(heldKeys, old(keys)) && Names(heldButtons, old(buttons))
      ensures Abstract() == Held({}, {}, old(locked))
    {
      heldKeys := Drain(keys);
      heldButtons := Drain(buttons);
      keys, buttons := {}, {};
    }

    /** The fold over the held keys. */
    method DepressedMask() returns (mask: bv32)
      ensures mask == Depressed(keys)
    {
      mask := 0;
      NoKeysNoModifiers();
      assert keys - keys == {};
      var rest := keys;
      while rest != {}
        invariant rest <= keys && mask == Depressed(keys - rest)
        decreases |rest|
      {
        var k :| k in rest;
        OneMoreKey(keys - rest, k);
        assert keys - (rest - {k}) == keys - rest + {k};
        mask, rest := mask | ModifierBit(k), rest - {k};
      }
      assert keys - rest == keys;
    }
  }

  method Drain(s: set<nat>) returns (list: seq<nat>)
    ensures Names(list, s)
  {
    list := [];
    var rest := s;
    while rest != {}
      invariant rest <= s && Names(list, s - rest)
      decreases |rest|
    {
      var k :| k in rest;
      list, rest := list + [k], rest - {k};
    }
  }

  // ---------- the host ----------

  datatype HostEvent =
    | KeyEvent(code: nat, pressed: bool)
    | Modifiers(depressed: bv32, locked: bv32)
    | ButtonEvent(button: nat, down: bool)
    | Motion(x: nat, y: nat)
    | AxisSource
    | Axis(vertical: bool, delta: int)
    | PointerFrame

  function KeyEvents(h: Held, code: nat, pressed: bool): seq<HostEvent>
    requires Accepts(h, code, pressed)
  {
    var h' := KeyHeld(h, code, pressed);
    [KeyEvent(code, pressed)] + (if Mods(h') != Mods(h) then [Modifiers(Mods(h').0, Mods(h').1)] else [])
  }

  function AxisEvents(vertical: bool, delta: int): seq<HostEvent> {
    if delta != 0 then [Axis(vertical, delta)] else []
  }

  /** What one event from the client does; without a keyboard, keys are ignored. */
  function Injected(h: Held, keyboard: bool, e: InputEvent): (Held, seq<HostEvent>) {
    match e
    case PointerMotion(x, y) => (h, [Motion(x, y), PointerFrame])
    case PointerButton(button, pressed) =>
      var code := button.EvdevCode();
      if pressed == (code in h.buttons) then (h, []) else
        (h.(buttons := if pressed then h.buttons + {code} else h.buttons - {code}),
         [ButtonEvent(code, pressed), PointerFrame])
    case PointerAxis(dx, dy) => (h, [AxisSource] + AxisEvents(true, dy) + AxisEvents(false, dx) + [PointerFrame])
    case Key(code, pressed) =>
      if keyboard && Accepts(h, code, pressed) then (KeyHeld(h, code, pressed), KeyEvents(h, code, pressed)) else (h, [])
  }

  function KeyReleases(keys: seq<nat>): seq<HostEvent> {
    if keys == [] then [] else [KeyEvent(keys[0], false)] + KeyReleases(keys[1..])
  }

  function ButtonReleases(buttons: seq<nat>): seq<HostEvent> {
    if buttons == [] then [] else [ButtonEvent(buttons[0], false)] + ButtonReleases(buttons[1..])
  }

  /** What releasing everything sends, for given orders of the held keys and buttons. */
  function Released(h: Held, keyboard: bool, keys: seq<nat>, buttons: seq<nat>): seq<HostEvent> {
    (if keyboard then KeyReleases(keys) + (if keys != [] then [Modifiers(0, h.locked)] else []) else [])
    + (ButtonReleases(buttons) + (if buttons != [] then [PointerFrame] else []))
  }

  class Injector {
    const keyboard: bool
    const held: HeldState
    /** The requests sent to the compositor. */
    var sent: seq<HostEvent>

    constructor (keyboard: bool)
      ensures fresh(held) && held.Abstract() == NOTHING_HELD && sent == [] && this.keyboard == keyboard
    {
      this.keyboard := keyboard;
      held := new HeldState();
      sent := [];
    }

    method Inject(event: InputEvent)
      modifies this, held
      ensures (held.Abstract(), sent)
           == (Injected(old(held.Abstract()), keyboard, event).0,
               old(sent) + Injected(old(held.Abstract()), keyboard, event).1)
    {
      match event
      case PointerMotion(x, y) => sent := sent + [Motion(x, y), PointerFrame];
      case PointerButton(button, pressed) =>
        var changed := held.Button(button.EvdevCode(), pressed);
        if changed {
          sent := sent + [ButtonEvent(button.EvdevCode(), pressed), PointerFrame];
        } else {
          assert held.Abstract() == old(held.Abstract()) && sent == old(sent) + [];
        }
      case PointerAxis(dx, dy) =>
        sent := sent + ([AxisSource] + AxisEvents(true, dy) + AxisEvents(false, dx) + [PointerFrame]);
      case Key(code, pressed) =>
        if keyboard {
          var action := held.Key(code, pressed);
          if action.Forwarded? {
            sent := sent + ([KeyEvent(code, pressed)]
                            + (if action.mods.Some? then [Modifiers(action.mods.value.0, action.mods.value.1)] else []));
          } else {
            assert sent == old(sent) + [];
          }
        } else {
          assert sent == old(sent) + [];
        }
    }

    /** Also what happens when the session ends. */
    method ReleaseAll() returns (ghost keys: seq<nat>, ghost buttons: seq<nat>)
      modifies this, held
      ensures Names(keys, old(held.keys)) && Names(buttons, old(held.buttons))
      ensures held.Abstract() == Held({}, {}, old(held.locked))
      ensures sent == old(sent) + Released(old(held.Abstract()), keyboard, keys, buttons)
    {
      var heldKeys, heldButtons := held.ReleaseAll();
      keys, buttons := heldKeys, heldButtons;
      if keyboard {
        sent := sent + KeyReleases(heldKeys);
        if heldKeys != [] {
          sent := sent + [Modifiers(0, held.locked)];
        }
      }
      ghost var soFar := sent;
      sent := sent + ButtonReleases(heldButtons);
      if heldButtons != [] {
        sent := sent + [PointerFrame];
      }
      assert sent == soFar + (ButtonReleases(buttons) + (if buttons != [] then [PointerFrame] else []));
    }
  }

  /** The host's view: what is down and the modifiers it was last told. */
  datatype Host = Host(keys: set<nat>, buttons: set<nat>, mods: (bv32, bv32))

  function Hears(host: Host, e: HostEvent): Host {
    match e
    case KeyEvent(code, pressed) => host.(keys := if pressed then host.keys + {code} else host.keys - {code})
    case ButtonEvent(code, pressed) => host.(buttons := if pressed then host.buttons + {code} else host.buttons - {code})
    case Modifiers(depressed, locked) => host.(mods := (depressed, locked))
    case _ => host
  }

  function HostAfter(sent: seq<HostEvent>): Host {
    if sent == [] then Host({}, {}, (0, 0)) else Hears(HostAfter(sent[..|sent| - 1]), sent[|sent| - 1])
  }

  /** Only what is up is pressed, and only what is down is released. */
  predicate Sensible(host: Host, e: HostEvent) {
    match e
    case KeyEvent(code, pressed) => pressed <==> code !in host.keys
    case ButtonEvent(code, pressed) => pressed <==> code !in host.buttons
    case _ => true
  }

  predicate AllSensible(sent: seq<HostEvent>) {
    sent == []
    || (AllSensible(sent[..|sent| - 1]) && Sensible(HostAfter(sent[..|sent| - 1]), sent[|sent| - 1]))
  }

  function Presses(sent: seq<HostEvent>, code: nat): nat {
    if sent == [] then 0 else
      Presses(sent[..|sent| - 1], code) + (if sent[|sent| - 1] == KeyEvent(code, true) then 1 else 0)
  }

  lemma OneMoreEvent(sent: seq<HostEvent>, e: HostEvent)
    ensures HostAfter(sent + [e]) == Hears(HostAfter(sent), e)
    ensures AllSensible(sent + [e]) <==> AllSensible(sent) && Sensible(HostAfter(sent), e)
    ensures forall code :: Presses(sent + [e], code) == Presses(sent, code) + if e == KeyEvent(code, true) then 1 else 0
  {}

  /** The lock bits are the parities of the presses of the two lock keys. */
  function Locks(sent: seq<HostEvent>): bv32 {
    LockBits(Odd(Presses(sent, KEY_CAPSLOCK)), Odd(Presses(sent, KEY_NUMLOCK)))
  }

  predicate Odd(n: nat) { n % 2 == 1 }

  function LockBits(caps: bool, num: bool): bv32 { Flag(caps, MOD_LOCK) | Flag(num, MOD_NUM) }

  /** The host mirrors the held state. */
  ghost predicate Mirror(h: Held, keyboard: bool, sent: seq<HostEvent>) {
    && HostAfter(sent) == Host(h.keys, h.buttons, Mods(h))
    && AllSensible(sent) && h.locked == Locks(sent)
    && (!keyboard ==> h.keys == {})
  }

  // ---------- every run ----------

  datatype InputStep =
    | Receive(event: InputEvent)
    | ReleaseEverything(keys: seq<nat>, buttons: seq<nat>)

  ghost predicate CanTake(h: Held, step: InputStep) {
    step.ReleaseEverything? ==> Names(step.keys, h.keys) && Names(step.buttons, h.buttons)
  }

  function Taken(h: Held, keyboard: bool, step: InputStep): (Held, seq<HostEvent>) {
    match step
    case Receive(e) => Injected(h, keyboard, e)
    case ReleaseEverything(keys, buttons) => (Held({}, {}, h.locked), Released(h, keyboard, keys, buttons))
  }

  lemma KeyKeepsMirror(h: Held, sent: seq<HostEvent>, code: nat, pressed: bool)
    requires Mirror(h, true, sent) && Accepts(h, code, pressed)
    ensures Mirror(KeyHeld(h, code, pressed), true, sent + KeyEvents(h, code, pressed))
  {
    var h', sent' := KeyHeld(h, code, pressed), sent + [KeyEvent(code, pressed)];
    OneMoreEvent(sent, KeyEvent(code, pressed));
    ToggleIsParity(sent, code, pressed);
    if Mods(h') != Mods(h) {
      var mods := Modifiers(Mods(h').0, Mods(h').1);
      OneMoreEvent(sent', mods);
      assert sent + KeyEvents(h, code, pressed) == sent' + [mods];
    } else {
      assert sent + KeyEvents(h, code, pressed) == sent';
    }
  }

  lemma ToggleIsParity(sent: seq<HostEvent>, code: nat, pressed: bool)
    ensures Locks(sent + [KeyEvent(code, pressed)]) == if pressed then Toggled(Locks(sent), code) else Locks(sent)
  {
    OneMoreEvent(sent, KeyEvent(code, pressed));
    OddNext(Presses(sent, code));
    FlipFlags(Odd(Presses(sent, KEY_CAPSLOCK)), Odd(Presses(sent, KEY_NUMLOCK)));
  }

  lemma OddNext(n: nat)
    ensures Odd(n + 1) == !Odd(n)
  {}

  lemma FlipFlags(caps: bool, num: bool)
    ensures LockBits(caps, num) ^ MOD_LOCK == LockBits(!caps, num)
    ensures LockBits(caps, num) ^ MOD_NUM == LockBits(caps, !num)
  {}

  /** Events that are neither keys nor buttons nor modifiers. */
  predicate Passive(e: HostEvent) { e.Motion? || e.AxisSource? || e.Axis? || e.PointerFrame? }

  lemma {:induction false} PassiveKeepsMirror(h: Held, keyboard: bool, sent: seq<HostEvent>, more: seq<HostEvent>)
    requires Mirror(h, keyboard, sent) && forall k :: 0 <= k < |more| ==> Passive(more[k])
    ensures Mirror(h, keyboard, sent + more)
    decreases |more|
  {
    if more == [] {
      assert sent + more == sent;
    } else {
      OneMoreEvent(sent, more[0]);
      assert sent + more == (sent + [more[0]]) + more[1..];
      PassiveKeepsMirror(h, keyboard, sent + [more[0]], more[1..]);
    }
  }

  lemma ButtonKeepsMirror(h: Held, keyboard: bool, sent: seq<HostEvent>, code: nat, pressed: bool)
    requires Mirror(h, keyboard, sent) && (pressed <==> code !in h.buttons)
    ensures Mirror(h.(buttons := if pressed then h.buttons + {code} else h.buttons - {code}), keyboard,
                   sent + [ButtonEvent(code, pressed)])
  {}

  lemma InjectKeepsMirror(h: Held, keyboard: bool, sent: seq<HostEvent>, e: InputEvent)
    requires Mirror(h, keyboard, sent)
    ensures Mirror(Injected(h, keyboard, e).0, keyboard, sent + Injected(h, keyboard, e).1)
  {
    var (h', more) := Injected(h, keyboard, e);
    match e
    case PointerMotion(x, y) => PassiveKeepsMirror(h, keyboard, sent, more);
    case PointerAxis(dx, dy) => PassiveKeepsMirror(h, keyboard, sent, more);
    case PointerButton(button, pressed) =>
      if more == [] {
        assert sent + more == sent;
      } else {
        var first := ButtonEvent(button.EvdevCode(), pressed);
        ButtonKeepsMirror(h, keyboard, sent, button.EvdevCode(), pressed);
        PassiveKeepsMirror(h', keyboard, sent + [first], [PointerFrame]);
        assert sent + more == (sent + [first]) + [PointerFrame];
      }
    case Key(code, pressed) =>
      if more == [] {
        assert sent + more == sent;
      } else {
        KeyKeepsMirror(h, sent, code, pressed);
      }
  }

  lemma NamesRest(list: seq<nat>, held: set<nat>)
    requires Names(list, held) && list != []
    ensures list[0] in held && Names(list[1..], held - {list[0]})
  {}

  /** Releases press nothing. */
  lemma {:induction false} NothingPressed(sent: seq<HostEvent>, more: seq<HostEvent>, code: nat)
    requires forall k :: 0 <= k < |more| ==> more[k] != KeyEvent(code, true)
    ensures Presses(sent + more, code) == Presses(sent, code)
    decreases |more|
  {
    if more == [] {
      assert sent + more == sent;
    } else {
      OneMoreEvent(sent, more[0]);
      assert sent + more == (sent + [more[0]]) + more[1..];
      NothingPressed(sent + [more[0]], more[1..], code);
    }
  }

  lemma {:induction false} ReleasesRelease(list: seq<nat>)
    ensures forall k :: 0 <= k < |KeyReleases(list)| ==> KeyReleases(list)[k].KeyEvent? && !KeyReleases(list)[k].pressed
    ensures forall k :: 0 <= k < |ButtonReleases(list)| ==> ButtonReleases(list)[k].ButtonEvent?
  {
    if list != [] { ReleasesRelease(list[1..]); }
  }

  lemma LocksKept(sent: seq<HostEvent>, list: seq<nat>)
    ensures Locks(sent + KeyReleases(list)) == Locks(sent) && Locks(sent + ButtonReleases(list)) == Locks(sent)
  {
    ReleasesRelease(list);
    NothingPressed(sent, KeyReleases(list), KEY_CAPSLOCK);
    NothingPressed(sent, KeyReleases(list), KEY_NUMLOCK);
    NothingPressed(sent, ButtonReleases(list), KEY_CAPSLOCK);
    NothingPressed(sent, ButtonReleases(list), KEY_NUMLOCK);
  }

  lemma {:induction false} KeyReleasesHeard(sent: seq<HostEvent>, keys: seq<nat>)
    requires AllSensible(sent) && Names(keys, HostAfter(sent).keys)
    ensures var after := sent + KeyReleases(keys);
            AllSensible(after) && HostAfter(after) == HostAfter(sent).(keys := {})
    decreases |keys|
  {
    if keys == [] {
      assert sent + KeyReleases(keys) == sent;
      assert HostAfter(sent).keys == {};
    } else {
      var next := sent + [KeyEvent(keys[0], false)];
      NamesRest(keys, HostAfter(sent).keys);
      OneMoreEvent(sent, KeyEvent(keys[0], false));
      Associate(sent, [KeyEvent(keys[0], false)], KeyReleases(keys[1..]));
      KeyReleasesHeard(next, keys[1..]);
    }
  }

  lemma {:induction false} ButtonReleasesHeard(sent: seq<HostEvent>, buttons: seq<nat>)
    requires AllSensible(sent) && Names(buttons, HostAfter(sent).buttons)
    ensures var after := sent + ButtonReleases(buttons);
            AllSensible(after) && HostAfter(after) == HostAfter(sent).(buttons := {})
    decreases |buttons|
  {
    if buttons == [] {
      assert sent + ButtonReleases(buttons) == sent;
      assert HostAfter(sent).buttons == {};
    } else {
      var next := sent + [ButtonEvent(buttons[0], false)];
      NamesRest(buttons, HostAfter(sent).buttons);
      OneMoreEvent(sent, ButtonEvent(buttons[0], false));
      Associate(sent, [ButtonEvent(buttons[0], false)], ButtonReleases(buttons[1..]));
      ButtonReleasesHeard(next, buttons[1..]);
    }
  }

  lemma ReleaseKeysKeepsMirror(h: Held, sent: seq<HostEvent>, keys: seq<nat>)
    requires Mirror(h, true, sent) && Names(keys, h.keys)
    ensures Mirror(h.(keys := {}), true,
                   sent + (KeyReleases(keys) + (if keys != [] then [Modifiers(0, h.locked)] else [])))
  {
    var after, last := sent + KeyReleases(keys), Modifiers(0, h.locked);
    NoKeysNoModifiers();
    KeyReleasesHeard(sent, keys);
    LocksKept(sent, keys);
    if keys != [] {
      OneMoreEvent(after, last);
      assert sent + (KeyReleases(keys) + [last]) == after + [last];
    } else {
      assert sent + (KeyReleases(keys) + []) == after;
      assert h.keys == {};
    }
  }

  lemma ReleaseButtonsKeepsMirror(h: Held, keyboard: bool, sent: seq<HostEvent>, buttons: seq<nat>)
    requires Mirror(h, keyboard, sent) && Names(buttons, h.buttons)
    ensures Mirror(h.(buttons := {}), keyboard,
                   sent + (ButtonReleases(buttons) + (if buttons != [] then [PointerFrame] else [])))
  {
    var after, frame := sent + ButtonReleases(buttons), if buttons != [] then [PointerFrame] else [];
    ButtonReleasesHeard(sent, buttons);
    LocksKept(sent, buttons);
    PassiveKeepsMirror(h.(buttons := {}), keyboard, after, frame);
    assert sent + (ButtonReleases(buttons) + frame) == after + frame;
  }

  lemma ReleaseKeepsMirror(h: Held, keyboard: bool, sent: seq<HostEvent>, keys: seq<nat>, buttons: seq<nat>)
    requires Mirror(h, keyboard, sent) && Names(keys, h.keys) && Names(buttons, h.buttons)
    ensures Mirror(Held({}, {}, h.locked), keyboard, sent + Released(h, keyboard, keys, buttons))
  {
    var keysReleased := KeyReleases(keys) + (if keys != [] then [Modifiers(0, h.locked)] else []);
    var first := if keyboard then keysReleased else [];
    var second := ButtonReleases(buttons) + (if buttons != [] then [PointerFrame] else []);
    if keyboard {
      ReleaseKeysKeepsMirror(h, sent, keys);
    } else {
      assert sent + first == sent;
    }
    ReleaseButtonsKeepsMirror(h.(keys := {}), keyboard, sent + first, buttons);
    assert Released(h, keyboard, keys, buttons) == first + second;
    Associate(sent, first, second);
  }

  /** The held state and everything sent after a run. */
  ghost function AfterInput(keyboard: bool, steps: seq<InputStep>): Option<(Held, seq<HostEvent>)> {
    if steps == [] then Some((NOTHING_HELD, [])) else
      var before := AfterInput(keyboard, steps[..|steps| - 1]);
      var step := steps[|steps| - 1];
      if before.None? || !CanTake(before.value.0, step) then None else
        var (h, more) := Taken(before.value.0, keyboard, step);
        Some((h, before.value.1 + more))
  }

  /** Over every run, the keys and buttons down on the host and the modifiers it was
      last told are those of the held state, and no event is redundant. */
  lemma {:induction false} HostMirrorsHeld(keyboard: bool, steps: seq<InputStep>)
    requires AfterInput(keyboard, steps).Some?
    ensures var (h, sent) := AfterInput(keyboard, steps).value; Mirror(h, keyboard, sent)
  {
    if steps == [] {
      NoKeysNoModifiers();
    } else {
      var before, step := steps[..|steps| - 1], steps[|steps| - 1];
      HostMirrorsHeld(keyboard, before);
      var (h, sent) := AfterInput(keyboard, before).value;
      match step
      case Receive(e) => InjectKeepsMirror(h, keyboard, sent, e);
      case ReleaseEverything(keys, buttons) => ReleaseKeepsMirror(h, keyboard, sent, keys, buttons);
    }
  }

  /** Releasing everything leaves nothing down on the host, with or without a keyboard;
      the locks stay. */
  lemma NothingStaysDown(keyboard: bool, steps: seq<InputStep>)
    requires steps != [] && steps[|steps| - 1].ReleaseEverything? && AfterInput(keyboard, steps).Some?
    ensures var (h, sent) := AfterInput(keyboard, steps).value;
            HostAfter(sent) == Host({}, {}, (0, Locks(sent)))
  {
    NoKeysNoModifiers();
    HostMirrorsHeld(keyboard, steps);
  }

  // ---------- alternation ----------

  /** The presses (true) and releases (false) of one key. */
  function OfKey(sent: seq<HostEvent>, code: nat): seq<bool> {
    if sent == [] then [] else
      var e := sent[|sent| - 1];
      OfKey(sent[..|sent| - 1], code) + (if e.KeyEvent? && e.code == code then [e.pressed] else [])
  }

  lemma {:induction false} SensibleAlternates(sent: seq<HostEvent>, code: nat)
    requires AllSensible(sent)
    ensures forall k :: 0 <= k < |OfKey(sent, code)| ==> (OfKey(sent, code)[k] <==> k % 2 == 0)
    ensures code in HostAfter(sent).keys <==> |OfKey(sent, code)| % 2 == 1
  {
    if sent != [] { SensibleAlternates(sent[..|sent| - 1], code); }
  }

  /** Over every run, the forwarded events of a key strictly alternate, beginning with a
      press, and the key is held exactly after an odd number of them. */
  lemma KeyEventsAlternate(keyboard: bool, steps: seq<InputStep>, code: nat)
    requires AfterInput(keyboard, steps).Some?
    ensures var (h, sent) := AfterInput(keyboard, steps).value;
            && (forall k :: 0 <= k < |OfKey(sent, code)| ==> (OfKey(sent, code)[k] <==> k % 2 == 0))
            && (code in h.keys <==> |OfKey(sent, code)| % 2 == 1)
  {
    HostMirrorsHeld(keyboard, steps);
    SensibleAlternates(AfterInput(keyboard, steps).value.1, code);
  }
}
