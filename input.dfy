/**
 * Keyboard and mouse state of src/input.rs. SDL's event pump is replaced by
 * the sequence of events one `update` call would poll.
 */
module Input {
  import opened Wrappers

  /** The three key sets of a `KeyStates`, as a value. */
  datatype KeySets<T> = KeySets(pressed: set<T>, justPressed: set<T>, justReleased: set<T>) {
    /** `clear`: forgets this frame's transitions; held keys stay held. */
    function Clear(): (k: KeySets<T>)
      ensures k.pressed == pressed
      ensures k.justPressed == {} && k.justReleased == {}
    {
      KeySets(pressed, {}, {})
    }

    /** `press`: `key` is held afterwards, and is new this frame exactly when it was not held before. */
    function Press(key: T): (k: KeySets<T>)
      ensures key in k.pressed && k.pressed - {key} == pressed - {key}
      ensures key in k.justPressed <==> key in justPressed || key !in pressed
      ensures k.justPressed - {key} == justPressed - {key}
      ensures k.justReleased == justReleased
    {
      if key !in pressed then KeySets(pressed + {key}, justPressed + {key}, justReleased)
      else this
    }

    /**
     * `release` as written: `key` is no longer held, and if it was held it
     * is taken out of (not put into) the just-released set.
     */
    function Release(key: T): (k: KeySets<T>)
      ensures key !in k.pressed && k.pressed + {key} == pressed + {key}
      ensures k.justPressed == justPressed
      ensures k.justReleased == if key in pressed then justReleased - {key} else justReleased
    {
      if key in pressed then KeySets(pressed - {key}, justPressed, justReleased - {key})
      else this
    }

    /** The evident intent of `release`: a key that was held is recorded as just released. */
    function ReleaseRecorded(key: T): (k: KeySets<T>)
      ensures key !in k.pressed && k.pressed + {key} == pressed + {key}
      ensures k.justPressed == justPressed
      ensures key in k.justReleased <==> key in justReleased || key in pressed
      ensures k.justReleased - {key} == justReleased - {key}
    {
      if key in pressed then KeySets(pressed - {key}, justPressed, justReleased + {key})
      else this
    }
  }

  /** `KeyStates::default()`: nothing held, nothing just pressed or released. */
  function EmptyKeySets<T>(): (k: KeySets<T>)
    ensures k.pressed == {} && k.justPressed == {} && k.justReleased == {}
  {
    KeySets({}, {}, {})
  }

  /** Pressing a held key again changes nothing. */
  lemma PressIdempotent<T>(k: KeySets<T>, key: T)
    ensures k.Press(key).Press(key) == k.Press(key)
  {
  }

  /** With the release written as it is, a key pressed and released in one frame is not reported as released. */
  lemma PressReleaseNotReported<T>(k: KeySets<T>, key: T)
    ensures key !in k.Press(key).Release(key).justReleased
    ensures key !in k.Press(key).Release(key).pressed
  {
  }

  /** With the intended release, a key pressed and then released in one frame is reported as released. */
  lemma PressReleaseRecordedReported<T>(k: KeySets<T>, key: T)
    ensures key in k.Press(key).ReleaseRecorded(key).justReleased
    ensures key !in k.Press(key).ReleaseRecorded(key).pressed
  {
  }

  /** `KeyStates<T>`: the three sets, updated in place. */
  class KeyStates<T(==)> {
    var pressed: set<T>
    var justPressed: set<T>
    var justReleased: set<T>

    function Snapshot(): KeySets<T>
      reads this
    {
      KeySets(pressed, justPressed, justReleased)
    }

    /** `Default::default()`. */
    constructor Default()
      ensures Snapshot() == EmptyKeySets()
    {
      pressed := {};
      justPressed := {};
      justReleased := {};
    }

    method Clear()
      modifies this
      ensures Snapshot() == old(Snapshot()).Clear()
    {
      justPressed := {};
      justReleased := {};
    }

    method Press(key: T)
      modifies this
      ensures Snapshot() == old(Snapshot()).Press(key)
    {
      if key !in pressed {
        pressed := pressed + {key};
        justPressed := justPressed + {key};
      }
    }

    method Release(key: T)
      modifies this
      ensures Snapshot() == old(Snapshot()).Release(key)
    {
      if key in pressed {
        pressed := pressed - {key};
        justReleased := justReleased - {key};
      }
    }
  }

  /** SDL key identities; their values do not matter here. */
  datatype Keycode = Keycode(code: int)
  datatype Scancode = Scancode(code: int)
  datatype MouseButton = Unknown | Left | Middle | Right | X1 | X2

  /** The SDL events `update` reacts to; every other kind is `Other`. */
  datatype Event =
    | Quit
    | KeyDown(keycode: Option<Keycode>, scancode: Option<Scancode>)
    | KeyUp(keycode: Option<Keycode>, scancode: Option<Scancode>)
    | MouseButtonDown(mouseBtn: MouseButton)
    | MouseButtonUp(mouseBtn: MouseButton)
    | TextInput(text: string)
    | Other

  /** The state of an `Input`, as a value. */
  datatype InputState = InputState(
    shouldQuit: bool,
    keycodes: KeySets<Keycode>,
    scancodes: KeySets<Scancode>,
    mouseButtons: KeySets<MouseButton>)
  {
    /** The start of `update`: each of the three key states cleared. */
    function ClearAll(): InputState
    {
      InputState(shouldQuit, keycodes.Clear(), scancodes.Clear(), mouseButtons.Clear())
    }

    /**
     * One event of the polling loop. A key event changes state only when it
     * carries both a keycode and a scancode.
     */
    function Handle(event: Event): InputState
    {
      match event
      case Quit => this.(shouldQuit := true)
      case KeyDown(Some(kc), Some(sc)) => this.(keycodes := keycodes.Press(kc), scancodes := scancodes.Press(sc))
      case KeyUp(Some(kc), Some(sc)) => this.(keycodes := keycodes.Release(kc), scancodes := scancodes.Release(sc))
      case MouseButtonDown(btn) => this.(mouseButtons := mouseButtons.Press(btn))
      case MouseButtonUp(btn) => this.(mouseButtons := mouseButtons.Release(btn))
      case _ => this
    }

    /** The events handled one after another. */
    function Run(events: seq<Event>): InputState
    {
      if |events| == 0 then this
      else Run(events[..|events| - 1]).Handle(events[|events| - 1])
    }

    /** No key state reports a just-released key. */
    predicate NothingJustReleased()
    {
      keycodes.justReleased == {} && scancodes.justReleased == {} && mouseButtons.justReleased == {}
    }
  }

  /** Once `should_quit` is set, no later events reset it. */
  lemma {:induction false} ShouldQuitSticky(s: InputState, events: seq<Event>)
    requires s.shouldQuit
    ensures s.Run(events).shouldQuit
  {
    if |events| > 0 {
      ShouldQuitSticky(s, events[..|events| - 1]);
    }
  }

  /** A quit event anywhere in the polled events sets `should_quit`. */
  lemma {:induction false} QuitSetsShouldQuit(s: InputState, events: seq<Event>)
    requires Quit in events
    ensures s.Run(events).shouldQuit
  {
    var n := |events| - 1;
    if events[n] != Quit {
      assert Quit in events[..n];
      QuitSetsShouldQuit(s, events[..n]);
    }
  }

  /** Events never add to a just-released set, since `release` only removes from it. */
  lemma {:induction false} NothingJustReleasedKept(s: InputState, events: seq<Event>)
    requires s.NothingJustReleased()
    ensures s.Run(events).NothingJustReleased()
  {
    if |events| > 0 {
      NothingJustReleasedKept(s, events[..|events| - 1]);
    }
  }

  /** `Input`: whether to quit, and the key states of keyboard keys, scancodes and mouse buttons. */
  class Input {
    var shouldQuit: bool
    var keycodes: KeyStates<Keycode>
    var scancodes: KeyStates<Scancode>
    var mouseButtons: KeyStates<MouseButton>

    /** The three key states are separate objects, as the fields of a Rust struct are. */
    predicate Valid()
      reads this
    {
      && keycodes as object != scancodes as object
      && keycodes as object != mouseButtons as object
      && scancodes as object != mouseButtons as object
    }

    function Snapshot(): InputState
      reads this, keycodes, scancodes, mouseButtons
    {
      InputState(shouldQuit, keycodes.Snapshot(), scancodes.Snapshot(), mouseButtons.Snapshot())
    }

    /** `Input::new`, without the event pump: not quitting, all key states empty. */
    constructor ()
      ensures Valid()
      ensures Snapshot() == InputState(false, EmptyKeySets(), EmptyKeySets(), EmptyKeySets())
    {
      shouldQuit := false;
      keycodes := new KeyStates.Default();
      scancodes := new KeyStates.Default();
      mouseButtons := new KeyStates.Default();
    }

    /** `update`: the key states cleared, then `events` handled in order. */
    method Update(events: seq<Event>)
      requires Valid()
      modifies this, keycodes, scancodes, mouseButtons
      ensures Valid()
      ensures keycodes == old(keycodes) && scancodes == old(scancodes) && mouseButtons == old(mouseButtons)
      ensures Snapshot() == old(Snapshot()).ClearAll().Run(events)
    {
      keycodes.Clear();
      scancodes.Clear();
      mouseButtons.Clear();
      ghost var start := Snapshot();
      for i := 0 to |events|
        invariant Valid()
        invariant keycodes == old(keycodes) && scancodes == old(scancodes) && mouseButtons == old(mouseButtons)
        invariant Snapshot() == start.Run(events[..i])
      {
        assert events[..i + 1][..i] == events[..i];
        match events[i] {
          case Quit =>
            shouldQuit := true;
          case KeyDown(Some(kc), Some(sc)) =>
            keycodes.Press(kc);
            scancodes.Press(sc);
          case KeyUp(Some(kc), Some(sc)) =>
            keycodes.Release(kc);
            scancodes.Release(sc);
          case MouseButtonDown(btn) =>
            mouseButtons.Press(btn);
          case MouseButtonUp(btn) =>
            mouseButtons.Release(btn);
          case _ =>
        }
      }
      assert events[..|events|] == events;
    }
  }

  /** After any `update`, no key state reports a just-released key. */
  lemma UpdateReportsNoRelease(before: InputState, events: seq<Event>)
    ensures before.ClearAll().Run(events).NothingJustReleased()
  {
    NothingJustReleasedKept(before.ClearAll(), events);
  }
}
