/** The keyboard shortcut that starts a run: `handleKeyDown` compares a
    key-down event against the configured key and modifier combination. */
module Shortcut {
  import opened Text

  /** The parts of a key-down event the handler reads. */
  datatype KeyEvent = KeyEvent(key: string, ctrlKey: bool, metaKey: bool, shiftKey: bool, altKey: bool)

  /** The stored settings: the shortcut key and the modifier name. */
  datatype Settings = Settings(shortcutKey: string, modifier: string)

  /** Ctrl+Q, the settings used before any are saved. */
  const DEFAULT_SETTINGS := Settings("q", "ctrl")

  /** The modifier names the settings can hold. */
  const MODIFIERS := ["ctrl", "shift", "alt", "ctrl+shift", "ctrl+alt", "shift+alt", "ctrl+shift+alt"]

  predicate Known(m: string) {
    m in MODIFIERS
  }

  /** Which of the three modifier groups are held; Meta (Cmd) counts as Ctrl. */
  datatype Chord = Chord(ctrl: bool, shift: bool, alt: bool)

  function Held(ev: KeyEvent): Chord {
    Chord(ev.ctrlKey || ev.metaKey, ev.shiftKey, ev.altKey)
  }

  /** The name of a chord as it is written in the settings. */
  function ChordName(c: Chord): string {
    var parts := (if c.ctrl then ["ctrl"] else []) + (if c.shift then ["shift"] else []) + (if c.alt then ["alt"] else []);
    if parts == [] then "" else if |parts| == 1 then parts[0]
    else if |parts| == 2 then parts[0] + "+" + parts[1]
    else parts[0] + "+" + parts[1] + "+" + parts[2]
  }

  /** The chord the settings ask for: the one the modifier names, Ctrl alone
      for a name it does not know. */
  function Required(m: string): Chord {
    Chord(m in {"ctrl", "ctrl+shift", "ctrl+alt", "ctrl+shift+alt"} || !Known(m),
          m in {"shift", "ctrl+shift", "shift+alt", "ctrl+shift+alt"},
          m in {"alt", "ctrl+alt", "shift+alt", "ctrl+shift+alt"})
  }

  /** The event fires the shortcut: the key matches without regard to
      (ASCII) case and the modifiers held are exactly the configured ones. */
  predicate Triggers(s: Settings, ev: KeyEvent) {
    Lower(ev.key) == Lower(s.shortcutKey) &&
    (if Known(s.modifier) then ChordName(Held(ev)) == s.modifier else Held(ev) == Chord(true, false, false))
  }

  /** `handleKeyDown`: true when the shortcut fires (and `runSnippet` runs). */
  method HandleKeyDown(settings: Settings, event: KeyEvent) returns (fire: bool)
    ensures fire == Triggers(settings, event)
  {
    var ctrlMatch, shiftMatch, altMatch;
    var ctrl := event.ctrlKey || event.metaKey;
    ghost var m := settings.modifier;
    match settings.modifier {
      case "ctrl" =>
        assert Required(m) == Chord(true, false, false);
        ctrlMatch, shiftMatch, altMatch := ctrl, !event.shiftKey, !event.altKey;
      case "shift" =>
        assert Required(m) == Chord(false, true, false);
        ctrlMatch, shiftMatch, altMatch := !ctrl, event.shiftKey, !event.altKey;
      case "alt" =>
        assert Required(m) == Chord(false, false, true);
        ctrlMatch, shiftMatch, altMatch := !ctrl, !event.shiftKey, event.altKey;
      case "ctrl+shift" =>
        assert Required(m) == Chord(true, true, false);
        ctrlMatch, shiftMatch, altMatch := ctrl, event.shiftKey, !event.altKey;
      case "ctrl+alt" =>
        assert Required(m) == Chord(true, false, true);
        ctrlMatch, shiftMatch, altMatch := ctrl, !event.shiftKey, event.altKey;
      case "shift+alt" =>
        assert Required(m) == Chord(false, true, true);
        ctrlMatch, shiftMatch, altMatch := !ctrl, event.shiftKey, event.altKey;
      case "ctrl+shift+alt" =>
        assert Required(m) == Chord(true, true, true);
        ctrlMatch, shiftMatch, altMatch := ctrl, event.shiftKey, event.altKey;
      case _ =>
        assert !Known(m);
        ctrlMatch, shiftMatch, altMatch := ctrl, !event.shiftKey, !event.altKey;
    }
    var keyMatch := Lower(event.key) == Lower(settings.shortcutKey);
    fire := ctrlMatch && shiftMatch && altMatch && keyMatch;
    TriggersIffRequiredChord(settings, event);
  }

  /** A known modifier name is the name of exactly one chord. */
  lemma ChordNameOfRequired(m: string, c: Chord)
    requires Known(m)
    ensures ChordName(c) == m <==> c == Required(m)
  {
    var all := [Chord(false, false, false), Chord(true, false, false), Chord(false, true, false),
                Chord(false, false, true), Chord(true, true, false), Chord(true, false, true),
                Chord(false, true, true), Chord(true, true, true)];
    assert c in all;
    assert ChordName(Chord(false, false, false)) == "";
  }

  /** The shortcut fires exactly when the key matches and the chord held is
      the one the modifier setting requires. */
  lemma TriggersIffRequiredChord(s: Settings, ev: KeyEvent)
    ensures Triggers(s, ev) <==>
      Lower(ev.key) == Lower(s.shortcutKey) && Held(ev) == Required(s.modifier)
  {
    if Known(s.modifier) {
      ChordNameOfRequired(s.modifier, Held(ev));
    }
  }

  /** A modifier name the handler does not know behaves like "ctrl". */
  lemma UnknownModifierActsAsCtrl(s: Settings, ev: KeyEvent)
    requires !Known(s.modifier)
    ensures Triggers(s, ev) <==> Triggers(s.(modifier := "ctrl"), ev)
  {
    TriggersIffRequiredChord(s, ev);
    TriggersIffRequiredChord(s.(modifier := "ctrl"), ev);
  }

  /** In "ctrl" mode, holding Shift or Alt as well blocks the shortcut, and
      so does holding neither Ctrl nor Meta. */
  lemma CtrlModeIsExact(s: Settings, ev: KeyEvent)
    requires s.modifier == "ctrl"
    ensures ev.shiftKey || ev.altKey || !(ev.ctrlKey || ev.metaKey) ==> !Triggers(s, ev)
  {
    TriggersIffRequiredChord(s, ev);
  }

  /** Meta (Cmd) and Ctrl are interchangeable. */
  lemma MetaActsAsCtrl(s: Settings, ev: KeyEvent)
    ensures Triggers(s, ev.(ctrlKey := false, metaKey := true)) <==> Triggers(s, ev.(ctrlKey := true, metaKey := false))
  {
    assert Held(ev.(ctrlKey := false, metaKey := true)) == Held(ev.(ctrlKey := true, metaKey := false));
  }

  /** An event fires the shortcut under at most one known modifier setting:
      holding an extra modifier, or missing one, does not fire. */
  lemma OneModifierSettingPerEvent(s1: Settings, s2: Settings, ev: KeyEvent)
    requires Known(s1.modifier) && Known(s2.modifier)
    requires Triggers(s1, ev) && Triggers(s2, ev)
    ensures s1.modifier == s2.modifier
  {
  }

  /** Ctrl+Q and Cmd+Q, in either letter case, fire the default shortcut;
      Ctrl+Shift+Q does not. */
  lemma DefaultShortcut()
    ensures Triggers(DEFAULT_SETTINGS, KeyEvent("Q", true, false, false, false))
    ensures Triggers(DEFAULT_SETTINGS, KeyEvent("q", false, true, false, false))
    ensures !Triggers(DEFAULT_SETTINGS, KeyEvent("q", true, false, true, false))
  {
    assert Lower("Q") == "q" && Lower("q") == "q";
    assert Known("ctrl");
  }
}
