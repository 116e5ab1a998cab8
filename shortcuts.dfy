/**
 * The keyboard-shortcut editor of the settings dialog (ShortcutsTable.cpp): a table with one
 * row per action of Settings::actionKeys (description, shortcut text, hidden action key), a
 * text filter on the descriptions, and the key handler that assigns the pressed key sequence to
 * the selected action after clearing, on confirmation, every other action that holds it.
 */
module Shortcuts {
  import opened Wrappers
  import opened Text

  /**
   * A QAction of Settings::actionKeys as the table sees it: its text and the text Qt writes for
   * its key sequence (`shortcut().toString()`), so the shortcut is always in Qt's own spelling,
   * which puts the modifiers in the order Ctrl, Alt, Shift.
   *
   * Throughout, `canonical(s)` stands for `QKeySequence(s).toString()`: the key sequence a text
   * names, written back in Qt's spelling; "Shift+Ctrl+C" and "Ctrl+Shift+C" both give
   * "Ctrl+Shift+C". The empty sequence `QKeySequence()` is written "".
   */
  datatype Action = Action(text: string, shortcut: string)

  /** A table row: column 0 the description, column 1 the shortcut, hidden column 2 the action key. */
  datatype Row = Row(description: string, shortcut: string, action: string)

  /** `keys` lists every key of `actions` once, in the ascending order a QMap iterates them. */
  ghost predicate Enumerates(keys: seq<string>, actions: map<string, Action>)
  {
    && (forall i, j :: 0 <= i < j < |keys| ==> LexLess(keys[i], keys[j]))
    && (forall k :: k in actions <==> k in keys)
  }

  // Key codes from Qt's qnamespace.h.
  const KeyShift := 0x0100_0020
  const KeyScrollLock := 0x0100_0026
  const KeySuperL := 0x0100_0053
  const KeyDirectionR := 0x0100_0060
  const KeyAltGr := 0x0100_1103
  const Key0 := 0x30
  const KeyColon := 0x3a

  /** Keys the handler ignores (ShortcutsTable.cpp:76-80): bare modifiers, AltGr, invalid codes. */
  predicate IgnoredKey(key: int)
  {
    (KeyShift <= key <= KeyScrollLock) || (KeySuperL <= key <= KeyDirectionR) || key == KeyAltGr || key < 0
  }

  /** Alt+1 .. Alt+9 and Alt+: launch external applications (ShortcutsTable.cpp:85-92). */
  predicate ReservedKey(alt: bool, key: int)
  {
    alt && Key0 < key <= KeyColon
  }

  function ModifierText(shift: bool, ctrl: bool, alt: bool): string
  {
    (if shift then "Shift+" else "") + (if ctrl then "Ctrl+" else "") + (if alt then "Alt+" else "")
  }

  /**
   * The key sequence text: the modifier prefix followed by the text Qt gives the key. With
   * Shift held it starts "Shift+", unlike Qt's own spelling of the same sequence.
   */
  function SequenceText(shift: bool, ctrl: bool, alt: bool, keyText: string): string
  {
    ModifierText(shift, ctrl, alt) + keyText
  }

  /**
   * The modifiers are written Shift, Ctrl, Alt in that order, each at most once, so the text of
   * a sequence starts with the first modifier held, ends with the key's own text and, for a
   * given key text, determines the modifiers.
   */
  lemma SequenceTextParts(shift: bool, ctrl: bool, alt: bool, keyText: string)
    ensures var s := SequenceText(shift, ctrl, alt, keyText);
      && s[|s| - |keyText|..] == keyText
      && (shift ==> StartsWith(s, "Shift+"))
      && (!shift && ctrl ==> StartsWith(s, "Ctrl+"))
      && (!shift && !ctrl && alt ==> StartsWith(s, "Alt+"))
      && (!shift && !ctrl && !alt ==> s == keyText)
    ensures forall shift', ctrl', alt' ::
      SequenceText(shift', ctrl', alt', keyText) == SequenceText(shift, ctrl, alt, keyText) ==>
        shift' == shift && ctrl' == ctrl && alt' == alt
  {
    var s := SequenceText(shift, ctrl, alt, keyText);
    assert s[..|s| - |keyText|] == ModifierText(shift, ctrl, alt);
    forall shift', ctrl', alt' | SequenceText(shift', ctrl', alt', keyText) == s
      ensures shift' == shift && ctrl' == ctrl && alt' == alt
    {
      var m, m' := ModifierText(shift, ctrl, alt), ModifierText(shift', ctrl', alt');
      assert |m| == |m'|;
    }
  }

  /** Where the sweep over the actions ended and what it left behind. */
  datatype Sweep = Sweep(actions: map<string, Action>, completed: bool, changed: bool)

  /**
   * The conflict loop (ShortcutsTable.cpp:94-108) over `keys`: every action whose shortcut is
   * the key sequence the typed text `sequence` names (`canonical(sequence)`, the text of the
   * temporary action's shortcut) is cleared once `confirm` accepts, and the first refusal stops
   * the sweep with the earlier clears in place. `changed` records whether anything was cleared.
   */
  function ClearConflicts(actions: map<string, Action>, keys: seq<string>, sequence: string,
                          canonical: string -> string, confirm: (string, string) -> bool): (r: Sweep)
    ensures r.actions.Keys == actions.Keys
  {
    if keys == [] then Sweep(actions, true, false)
    else
      var k := keys[0];
      if k in actions && actions[k].shortcut == canonical(sequence) then
        if !confirm(actions[k].text, sequence) then Sweep(actions, false, false)
        else
          ClearConflicts(actions[k := actions[k].(shortcut := "")], keys[1..], sequence, canonical, confirm)
            .(changed := true)
      else ClearConflicts(actions, keys[1..], sequence, canonical, confirm)
  }

  /**
   * The sweep keeps every action's text, only ever empties a shortcut that is the typed key
   * sequence in Qt's spelling, leaves actions outside `keys` alone and changes nothing when it
   * clears nothing; once it completes, no action it went over holds that key sequence any more,
   * however its modifiers were typed.
   */
  lemma {:induction false} ClearConflictsSpec(actions: map<string, Action>, keys: seq<string>, sequence: string,
                                              canonical: string -> string, confirm: (string, string) -> bool)
    ensures var r := ClearConflicts(actions, keys, sequence, canonical, confirm);
      && (forall k :: k in actions ==> r.actions[k].text == actions[k].text)
      && (forall k :: k in actions ==>
            r.actions[k].shortcut == actions[k].shortcut
            || (actions[k].shortcut == canonical(sequence) && r.actions[k].shortcut == ""))
      && (forall k :: k in actions && k !in keys ==> r.actions[k] == actions[k])
      && (r.completed && canonical(sequence) != "" ==>
            forall k :: k in keys && k in actions ==> r.actions[k].shortcut != canonical(sequence))
      && (!r.changed ==> r.actions == actions)
  {
    if keys != [] {
      var k := keys[0];
      assert forall x :: x in keys && x != k ==> x in keys[1..];
      if k in actions && actions[k].shortcut == canonical(sequence) {
        if confirm(actions[k].text, sequence) {
          var cleared := actions[k := actions[k].(shortcut := "")];
          ClearConflictsSpec(cleared, keys[1..], sequence, canonical, confirm);
        }
      } else {
        ClearConflictsSpec(actions, keys[1..], sequence, canonical, confirm);
      }
    }
  }

  /** The rows refreshShortcuts (ShortcutsTable.cpp:156-173) appends, one per action in `keys` that passes the filter. */
  function FilteredRows(actions: map<string, Action>, keys: seq<string>, filter: string): (rows: seq<Row>)
    requires forall k :: k in keys ==> k in actions
    ensures |rows| <= |keys|
  {
    if keys == [] then []
    else
      var k := keys[|keys| - 1];
      FilteredRows(actions, keys[..|keys| - 1], filter)
        + (if MatchesFilter(filter, actions[k].text) then [Row(actions[k].text, actions[k].shortcut, k)] else [])
  }

  predicate HasRow(rows: seq<Row>, action: string)
  {
    exists i :: 0 <= i < |rows| && rows[i].action == action
  }

  /**
   * Every refreshed row shows the text and shortcut of an action whose text passes the filter,
   * and an action has a row exactly when its text passes the filter.
   */
  lemma {:induction false} FilteredRowsSpec(actions: map<string, Action>, keys: seq<string>, filter: string)
    requires forall k :: k in keys ==> k in actions
    ensures var rows := FilteredRows(actions, keys, filter);
      && (forall i :: 0 <= i < |rows| ==>
            && rows[i].action in keys
            && rows[i].description == actions[rows[i].action].text
            && rows[i].shortcut == actions[rows[i].action].shortcut)
      && (forall k :: k in keys ==> (HasRow(rows, k) <==> MatchesFilter(filter, actions[k].text)))
  {
    if keys != [] {
      var p, k := keys[..|keys| - 1], keys[|keys| - 1];
      FilteredRowsSpec(actions, p, filter);
      var rows, prev := FilteredRows(actions, keys, filter), FilteredRows(actions, p, filter);
      forall i | 0 <= i < |rows|
        ensures rows[i].action in keys
      {
        if i < |prev| {
          assert rows[i] == prev[i];
        }
      }
      forall x | x in keys
        ensures HasRow(rows, x) <==> MatchesFilter(filter, actions[x].text)
      {
        if MatchesFilter(filter, actions[x].text) {
          if x == k {
            assert rows[|rows| - 1].action == k;
          } else {
            assert x in p;
            var i :| 0 <= i < |prev| && prev[i].action == x;
            assert rows[i] == prev[i];
          }
        }
        if HasRow(rows, x) {
          var i :| 0 <= i < |rows| && rows[i].action == x;
          if i < |prev| {
            assert rows[i] == prev[i];
          }
        }
      }
    }
  }

  /** The refreshed rows follow the ascending key order, so no action appears twice. */
  lemma {:induction false} FilteredRowsOrdered(actions: map<string, Action>, keys: seq<string>, filter: string)
    requires forall k :: k in keys ==> k in actions
    requires forall i, j :: 0 <= i < j < |keys| ==> LexLess(keys[i], keys[j])
    ensures var rows := FilteredRows(actions, keys, filter);
      forall i, j :: 0 <= i < j < |rows| ==> LexLess(rows[i].action, rows[j].action)
  {
    if keys != [] {
      var p, k := keys[..|keys| - 1], keys[|keys| - 1];
      FilteredRowsOrdered(actions, p, filter);
      FilteredRowsSpec(actions, p, filter);
      var rows, prev := FilteredRows(actions, keys, filter), FilteredRows(actions, p, filter);
      forall i, j | 0 <= i < j < |rows|
        ensures LexLess(rows[i].action, rows[j].action)
      {
        assert rows[i] == prev[i];
        if j < |prev| {
          assert rows[j] == prev[j];
        } else {
          var m :| 0 <= m < |p| && p[m] == prev[i].action;
          assert keys[m] == p[m];
        }
      }
    }
  }

  /** The part of the table and of Settings::actionKeys the handlers read and write. */
  datatype Table = Table(actions: map<string, Action>, rows: seq<Row>, selected: Option<nat>)

  /** Every row names an action that exists, and the selection is a row. */
  predicate TableInv(t: Table)
  {
    && (forall i :: 0 <= i < |t.rows| ==> t.rows[i].action in t.actions)
    && (t.selected.Some? ==> t.selected.value < |t.rows|)
  }

  /**
   * A shortcut cell names the action's key sequence: it holds the action's own text, as a
   * refresh writes it, or a typed text Qt reads as that sequence, as a key press writes it.
   */
  predicate Names(canonical: string -> string, cell: string, shortcut: string)
  {
    cell == shortcut || canonical(cell) == shortcut
  }

  /** The table shows each listed action once, with the action's current text and key sequence. */
  predicate Consistent(t: Table, canonical: string -> string)
  {
    && (forall i :: 0 <= i < |t.rows| ==>
          && t.rows[i].action in t.actions
          && t.rows[i].description == t.actions[t.rows[i].action].text
          && Names(canonical, t.rows[i].shortcut, t.actions[t.rows[i].action].shortcut))
    && (forall i, j :: 0 <= i < j < |t.rows| ==> t.rows[i].action != t.rows[j].action)
  }

  /** refreshShortcuts: the model is cleared, which drops the selection, and rebuilt. */
  function Refresh(t: Table, keys: seq<string>, filter: string): Table
    requires forall k :: k in keys ==> k in t.actions
  {
    Table(t.actions, FilteredRows(t.actions, keys, filter), None)
  }

  lemma RefreshInv(t: Table, keys: seq<string>, filter: string)
    requires forall k :: k in keys ==> k in t.actions
    ensures TableInv(Refresh(t, keys, filter))
  {
    FilteredRowsSpec(t.actions, keys, filter);
  }

  /** A refresh makes the table consistent with the actions, whatever it showed before. */
  lemma RefreshConsistent(t: Table, keys: seq<string>, filter: string, canonical: string -> string)
    requires Enumerates(keys, t.actions)
    ensures var r := Refresh(t, keys, filter); TableInv(r) && Consistent(r, canonical)
  {
    var rows := FilteredRows(t.actions, keys, filter);
    FilteredRowsSpec(t.actions, keys, filter);
    FilteredRowsOrdered(t.actions, keys, filter);
    forall i, j | 0 <= i < j < |rows|
      ensures rows[i].action != rows[j].action
    {
      LexLessIrreflexive(rows[i].action);
    }
  }

  /** The key press reaches the conflict loop: a row is selected and the key is neither ignored nor reserved. */
  predicate Handled(t: Table, key: int, alt: bool)
  {
    t.selected.Some? && !IgnoredKey(key) && !ReservedKey(alt, key)
  }

  /**
   * The part of keyPressEvent after the key checks (ShortcutsTable.cpp:94-116), as written:
   * sweep the conflicts, then write the typed text into the selected row's cell and give its
   * action the key sequence the text names, and refresh when something was cleared; a refusal
   * returns at once. `confirm` stands for the user's answer to confirmOverwriteShortcut
   * (ShortcutsTable.cpp:119-131) about an action text and the typed text.
   */
  function ReassignAsWritten(t: Table, keys: seq<string>, filter: string, sequence: string,
                             canonical: string -> string, confirm: (string, string) -> bool): Table
    requires TableInv(t) && t.selected.Some? && forall k :: k in keys ==> k in t.actions
  {
    var sweep := ClearConflicts(t.actions, keys, sequence, canonical, confirm);
    if !sweep.completed then t.(actions := sweep.actions)
    else
      var row := t.selected.value;
      var name := t.rows[row].action;
      var actions := sweep.actions[name := sweep.actions[name].(shortcut := canonical(sequence))];
      if sweep.changed then Refresh(Table(actions, t.rows, t.selected), keys, filter)
      else Table(actions, t.rows[row := t.rows[row].(shortcut := sequence)], t.selected)
  }

  /**
   * keyPressEvent (ShortcutsTable.cpp:60-117) as written. `keyText` stands for
   * QKeySequence(key).toString().
   */
  function KeyPressAsWritten(t: Table, keys: seq<string>, filter: string, key: int, shift: bool, ctrl: bool,
                             alt: bool, keyText: int -> string, canonical: string -> string,
                             confirm: (string, string) -> bool): Table
    requires TableInv(t) && forall k :: k in keys ==> k in t.actions
  {
    if !Handled(t, key, alt) then t
    else ReassignAsWritten(t, keys, filter, SequenceText(shift, ctrl, alt, keyText(key)), canonical, confirm)
  }

  /**
   * With two actions holding the same sequence, accepting the first conflict and declining the
   * second returns without the refresh the sweep asked for: the first action has lost its
   * shortcut but its row still shows it.
   */
  lemma DeclineLeavesStaleRow(keyText: int -> string, canonical: string -> string, confirm: (string, string) -> bool)
    requires keyText(0x58) == "X" && canonical("Ctrl+X") == "Ctrl+X"
    requires confirm("A", "Ctrl+X") && !confirm("B", "Ctrl+X")
    ensures var actions := map["a" := Action("A", "Ctrl+X"), "b" := Action("B", "Ctrl+X")];
      var keys := ["a", "b"];
      var t := Table(actions, FilteredRows(actions, keys, ""), Some(0));
      && Enumerates(keys, actions) && TableInv(t) && Consistent(t, canonical)
      && !Consistent(KeyPressAsWritten(t, keys, "", 0x58, false, true, false, keyText, canonical, confirm), canonical)
  {
    var actions := map["a" := Action("A", "Ctrl+X"), "b" := Action("B", "Ctrl+X")];
    var keys := ["a", "b"];
    assert LexLess("a", "b");
    assert keys[..1] == ["a"] && keys[..1][..0] == [];
    var rows := FilteredRows(actions, keys, "");
    assert rows == [Row("A", "Ctrl+X", "a"), Row("B", "Ctrl+X", "b")];
    var t := Table(actions, rows, Some(0));
    RefreshConsistent(t, keys, "", canonical);
    assert SequenceText(false, true, false, "X") == "Ctrl+X";
    var cleared := actions["a" := Action("A", "")];
    assert keys[1..] == ["b"];
    assert ClearConflicts(cleared, keys[1..], "Ctrl+X", canonical, confirm) == Sweep(cleared, false, false);
    var r := KeyPressAsWritten(t, keys, "", 0x58, false, true, false, keyText, canonical, confirm);
    assert r == t.(actions := cleared);
    assert r.rows[0].shortcut != r.actions[r.rows[0].action].shortcut;
  }

  /**
   * The reassignment with the refresh it owes after a refusal: when the sweep has already
   * cleared an action before the user declines, the table is rebuilt as it is when the sweep
   * completes.
   */
  function Reassign(t: Table, keys: seq<string>, filter: string, sequence: string,
                    canonical: string -> string, confirm: (string, string) -> bool): Table
    requires TableInv(t) && t.selected.Some? && forall k :: k in keys ==> k in t.actions
  {
    var r := ReassignAsWritten(t, keys, filter, sequence, canonical, confirm);
    var sweep := ClearConflicts(t.actions, keys, sequence, canonical, confirm);
    if !sweep.completed && sweep.changed then Refresh(r, keys, filter) else r
  }

  /** keyPressEvent with the corrected reassignment. */
  function KeyPress(t: Table, keys: seq<string>, filter: string, key: int, shift: bool, ctrl: bool,
                    alt: bool, keyText: int -> string, canonical: string -> string,
                    confirm: (string, string) -> bool): Table
    requires TableInv(t) && forall k :: k in keys ==> k in t.actions
  {
    if !Handled(t, key, alt) then t
    else Reassign(t, keys, filter, SequenceText(shift, ctrl, alt, keyText(key)), canonical, confirm)
  }

  /** Without a selection, or on an ignored or reserved key, the press changes nothing. */
  lemma KeyPressIgnored(t: Table, keys: seq<string>, filter: string, key: int, shift: bool, ctrl: bool,
                        alt: bool, keyText: int -> string, canonical: string -> string,
                        confirm: (string, string) -> bool)
    requires TableInv(t) && forall k :: k in keys ==> k in t.actions
    requires t.selected.None? || IgnoredKey(key) || ReservedKey(alt, key)
    ensures KeyPress(t, keys, filter, key, shift, ctrl, alt, keyText, canonical, confirm) == t
  {
  }

  /**
   * A refusal leaves the selected row's action untouched: the only changes are the conflicting
   * shortcuts already cleared, and the selection survives unless those forced a refresh.
   */
  lemma KeyPressDeclined(t: Table, keys: seq<string>, filter: string, key: int, shift: bool, ctrl: bool,
                         alt: bool, keyText: int -> string, canonical: string -> string,
                         confirm: (string, string) -> bool)
    requires TableInv(t) && Enumerates(keys, t.actions) && Handled(t, key, alt)
    requires !ClearConflicts(t.actions, keys, SequenceText(shift, ctrl, alt, keyText(key)), canonical, confirm).completed
    ensures var sequence := SequenceText(shift, ctrl, alt, keyText(key));
      var r := KeyPress(t, keys, filter, key, shift, ctrl, alt, keyText, canonical, confirm);
      && r.actions.Keys == t.actions.Keys
      && (forall k :: k in t.actions ==>
            && r.actions[k].text == t.actions[k].text
            && (r.actions[k].shortcut == t.actions[k].shortcut
                || (t.actions[k].shortcut == canonical(sequence) && r.actions[k].shortcut == "")))
      && ((r.rows == t.rows && r.selected == t.selected) || r == Refresh(r, keys, filter))
  {
    var sequence := SequenceText(shift, ctrl, alt, keyText(key));
    ClearConflictsSpec(t.actions, keys, sequence, canonical, confirm);
  }

  /**
   * The actions after a completed sweep for the typed text `sequence` and the assignment of its
   * key sequence to `name`: `name` holds the key sequence in Qt's spelling; unless the text
   * names the empty sequence no other action is bound to it, whichever order the modifiers were
   * typed in; no other action gains a shortcut and no text changes.
   */
  lemma {:induction false} SweepThenAssign(actions: map<string, Action>, keys: seq<string>, name: string,
                                           sequence: string, canonical: string -> string,
                                           confirm: (string, string) -> bool)
    requires Enumerates(keys, actions) && name in actions
    requires ClearConflicts(actions, keys, sequence, canonical, confirm).completed
    ensures var sweep := ClearConflicts(actions, keys, sequence, canonical, confirm);
      var r := sweep.actions[name := sweep.actions[name].(shortcut := canonical(sequence))];
      && r.Keys == actions.Keys
      && r[name].shortcut == canonical(sequence)
      && (canonical(sequence) != "" ==> forall k :: k in r && k != name ==> r[k].shortcut != r[name].shortcut)
      && (forall k :: k in actions ==> r[k].text == actions[k].text)
      && (forall k :: k in actions && k != name ==>
            r[k].shortcut == actions[k].shortcut || r[k].shortcut == "")
  {
    ClearConflictsSpec(actions, keys, sequence, canonical, confirm);
  }

  /** Two actions listed in QMap order, as the table shows them under an empty filter. */
  lemma TwoActionRows(k1: string, a1: Action, k2: string, a2: Action)
    requires LexLess(k1, k2)
    ensures Enumerates([k1, k2], map[k1 := a1, k2 := a2])
    ensures FilteredRows(map[k1 := a1, k2 := a2], [k1, k2], "")
      == [Row(a1.text, a1.shortcut, k1), Row(a2.text, a2.shortcut, k2)]
  {
    LexLessIrreflexive(k1);
    var keys, actions := [k1, k2], map[k1 := a1, k2 := a2];
    assert keys[..1] == [k1] && keys[..1][..0] == [];
    assert actions[k1] == a1 && actions[k2] == a2;
  }

  /** Ctrl+Shift+C as the handler writes it: Shift first. */
  lemma ShiftCtrlC()
    ensures SequenceText(true, true, false, "C") == "Shift+Ctrl+C"
  {
    assert ModifierText(true, true, false) == "Shift+" + "Ctrl+" + "";
    assert "Shift+" + "Ctrl+" + "" == "Shift+Ctrl+";
    assert "Shift+Ctrl+" + "C" == "Shift+Ctrl+C";
  }

  /**
   * A default binding written in Qt's spelling (Phototonic.cpp:2750, "Ctrl+Shift+C" for Copy
   * Image) conflicts with the same keys pressed for another action, although the handler writes
   * them "Shift+Ctrl+C": once the user agrees, Copy Image loses the binding, Paste Image gains
   * it in Qt's spelling, and the table is rebuilt to show both.
   */
  lemma ReorderedModifiersConflict(keyText: int -> string, canonical: string -> string,
                                   confirm: (string, string) -> bool)
    requires keyText(0x43) == "C" && canonical("Shift+Ctrl+C") == "Ctrl+Shift+C"
    requires confirm("Copy Image", "Shift+Ctrl+C")
    ensures var actions := map["copyImage" := Action("Copy Image", "Ctrl+Shift+C"),
                               "pasteImage" := Action("Paste Image", "Ctrl+Shift+V")];
      var keys := ["copyImage", "pasteImage"];
      var t := Table(actions, FilteredRows(actions, keys, ""), Some(1));
      var r := KeyPress(t, keys, "", 0x43, true, true, false, keyText, canonical, confirm);
      && Enumerates(keys, actions) && TableInv(t)
      && SequenceText(true, true, false, "C") != actions["copyImage"].shortcut
      && r.actions == map["copyImage" := Action("Copy Image", ""),
                          "pasteImage" := Action("Paste Image", "Ctrl+Shift+C")]
      && r.rows == [Row("Copy Image", "", "copyImage"), Row("Paste Image", "Ctrl+Shift+C", "pasteImage")]
  {
    var copy, paste := Action("Copy Image", "Ctrl+Shift+C"), Action("Paste Image", "Ctrl+Shift+V");
    var actions := map["copyImage" := copy, "pasteImage" := paste];
    var keys := ["copyImage", "pasteImage"];
    assert LexLess("copyImage", "pasteImage");
    TwoActionRows("copyImage", copy, "pasteImage", paste);
    var sequence := SequenceText(true, true, false, "C");
    ShiftCtrlC();
    assert sequence[0] != copy.shortcut[0];
    var cleared := actions["copyImage" := copy.(shortcut := "")];
    assert keys[1..] == ["pasteImage"] && keys[1..][1..] == [];
    assert cleared["pasteImage"] == paste;
    assert paste.shortcut[11] != copy.shortcut[11];
    assert ClearConflicts(cleared, keys[1..], sequence, canonical, confirm) == Sweep(cleared, true, false);
    assert actions["copyImage"].shortcut == canonical(sequence);
    var sweep := ClearConflicts(actions, keys, sequence, canonical, confirm);
    assert sweep == Sweep(cleared, true, true);
    var bound := cleared["pasteImage" := paste.(shortcut := "Ctrl+Shift+C")];
    assert bound == map["copyImage" := Action("Copy Image", ""), "pasteImage" := Action("Paste Image", "Ctrl+Shift+C")];
    TwoActionRows("copyImage", Action("Copy Image", ""), "pasteImage", Action("Paste Image", "Ctrl+Shift+C"));
  }

  /**
   * A completed press gives the selected row's action the typed key sequence in Qt's spelling,
   * on top of the sweep's result, as SweepThenAssign describes; when the sweep cleared nothing
   * the selected row's cell shows the text as typed and the rest of the table is unchanged.
   */
  lemma KeyPressAssigns(t: Table, keys: seq<string>, filter: string, key: int, shift: bool, ctrl: bool,
                        alt: bool, keyText: int -> string, canonical: string -> string,
                        confirm: (string, string) -> bool)
    requires TableInv(t) && Enumerates(keys, t.actions) && Handled(t, key, alt)
    requires ClearConflicts(t.actions, keys, SequenceText(shift, ctrl, alt, keyText(key)), canonical, confirm).completed
    ensures var sequence := SequenceText(shift, ctrl, alt, keyText(key));
      var name := t.rows[t.selected.value].action;
      var sweep := ClearConflicts(t.actions, keys, sequence, canonical, confirm);
      var r := KeyPress(t, keys, filter, key, shift, ctrl, alt, keyText, canonical, confirm);
      && r.actions == sweep.actions[name := sweep.actions[name].(shortcut := canonical(sequence))]
      && (!sweep.changed ==>
            r.rows == t.rows[t.selected.value := t.rows[t.selected.value].(shortcut := sequence)]
            && r.selected == t.selected)
  {
  }

  /** The corrected press keeps the table showing every listed action's current shortcut. */
  lemma KeyPressKeepsConsistent(t: Table, keys: seq<string>, filter: string, key: int, shift: bool, ctrl: bool,
                                alt: bool, keyText: int -> string, canonical: string -> string,
                                confirm: (string, string) -> bool)
    requires TableInv(t) && Enumerates(keys, t.actions) && Consistent(t, canonical)
    ensures var r := KeyPress(t, keys, filter, key, shift, ctrl, alt, keyText, canonical, confirm);
      TableInv(r) && Consistent(r, canonical)
  {
    if Handled(t, key, alt) {
      var sequence := SequenceText(shift, ctrl, alt, keyText(key));
      var sweep := ClearConflicts(t.actions, keys, sequence, canonical, confirm);
      ClearConflictsSpec(t.actions, keys, sequence, canonical, confirm);
      var r := KeyPressAsWritten(t, keys, filter, key, shift, ctrl, alt, keyText, canonical, confirm);
      if sweep.changed {
        RefreshConsistent(r, keys, filter, canonical);
      } else if sweep.completed {
        var row := t.selected.value;
        var name := t.rows[row].action;
        forall i | 0 <= i < |r.rows| && i != row
          ensures r.rows[i].action != name
        {
          if i < row {
            assert t.rows[i].action != t.rows[row].action;
          } else {
            assert t.rows[row].action != t.rows[i].action;
          }
        }
      }
    }
  }

  /** clearSelectedShortcut (ShortcutsTable.cpp:133-141) for the right-clicked row `entry`. */
  function ClearEntry(t: Table, entry: Option<nat>): Table
    requires TableInv(t) && (entry.Some? ==> entry.value < |t.rows|)
  {
    if entry.None? then t
    else
      var name := t.rows[entry.value].action;
      t.(rows := t.rows[entry.value := t.rows[entry.value].(shortcut := "")],
         actions := t.actions[name := t.actions[name].(shortcut := "")])
  }

  /**
   * Clearing empties the shortcut of the right-clicked row's action and nothing else, and keeps
   * the table consistent with the actions.
   */
  lemma ClearEntrySpec(t: Table, entry: Option<nat>, canonical: string -> string)
    requires TableInv(t) && Consistent(t, canonical) && entry.Some? && entry.value < |t.rows|
    ensures var r := ClearEntry(t, entry);
      && r.actions.Keys == t.actions.Keys
      && r.actions[t.rows[entry.value].action].shortcut == ""
      && (forall k :: k in t.actions && k != t.rows[entry.value].action ==> r.actions[k] == t.actions[k])
      && TableInv(r) && Consistent(r, canonical)
  {
    var row := entry.value;
    var r := ClearEntry(t, entry);
    forall i | 0 <= i < |r.rows| && i != row
      ensures r.rows[i].action != t.rows[row].action
    {
      if i < row {
        assert t.rows[i].action != t.rows[row].action;
      } else {
        assert t.rows[row].action != t.rows[i].action;
      }
    }
  }

  /**
   * The conflict loop of keyPressEvent (ShortcutsTable.cpp:94-108) on the map of actions, in
   * key order; it returns the map as the loop leaves it, whether the loop ran to its end and
   * whether it cleared anything.
   */
  method SweepConflicts(actions: map<string, Action>, keys: seq<string>, sequence: string,
                        canonical: string -> string, confirm: (string, string) -> bool)
    returns (cleared: map<string, Action>, completed: bool, needToRefresh: bool)
    ensures Sweep(cleared, completed, needToRefresh) == ClearConflicts(actions, keys, sequence, canonical, confirm)
  {
    ghost var sweep := ClearConflicts(actions, keys, sequence, canonical, confirm);
    cleared, needToRefresh := actions, false;
    var i := 0;
    while i < |keys|
      invariant i <= |keys|
      invariant var r := ClearConflicts(cleared, keys[i..], sequence, canonical, confirm);
        r.actions == sweep.actions && r.completed == sweep.completed
        && sweep.changed == (needToRefresh || r.changed)
    {
      var key := keys[i];
      assert keys[i..][1..] == keys[i + 1..];
      var tmpShortcut := canonical(sequence);
      if key in cleared && cleared[key].shortcut == tmpShortcut {
        if !confirm(cleared[key].text, sequence) {
          return cleared, false, needToRefresh;
        }
        cleared := cleared[key := cleared[key].(shortcut := "")];
        needToRefresh := true;
      }
      i := i + 1;
    }
    return cleared, true, needToRefresh;
  }

  /** The shortcuts table widget together with the Settings::actionKeys map it edits. */
  class ShortcutsTable {
    var actionKeys: map<string, Action>   // Settings::actionKeys
    const keyOrder: seq<string>           // the order in which a QMap iterates actionKeys
    var rows: seq<Row>                    // keysModel
    var selected: Option<nat>             // selectedIndexes().first().row()
    var selectedEntry: Option<nat>        // the row under the last context-menu click
    var shortcutsFilter: string

    function State(): Table
      reads this
    {
      Table(actionKeys, rows, selected)
    }

    ghost predicate Valid()
      reads this
    {
      Enumerates(keyOrder, actionKeys) && TableInv(State())
    }

    /** ShortcutsTable.cpp:27-50: an empty model and an empty filter. */
    constructor (actions: map<string, Action>, keys: seq<string>)
      requires Enumerates(keys, actions)
      ensures Valid() && State() == Table(actions, [], None) && keyOrder == keys
      ensures selectedEntry.None? && shortcutsFilter == ""
    {
      actionKeys := actions;
      keyOrder := keys;
      rows := [];
      selected := None;
      selectedEntry := None;
      shortcutsFilter := "";
    }

    /** The view's single-row selection (ShortcutsTable.cpp:31-32), driven by the user. */
    method Select(row: Option<nat>)
      requires Valid() && (row.Some? ==> row.value < |rows|)
      modifies this
      ensures Valid() && State() == old(State()).(selected := row)
      ensures selectedEntry == old(selectedEntry) && shortcutsFilter == old(shortcutsFilter)
    {
      selected := row;
    }

    method AddRow(action: string, description: string, shortcut: string)
      requires action in actionKeys
      modifies this
      ensures rows == old(rows) + [Row(description, shortcut, action)]
      ensures actionKeys == old(actionKeys) && selected == old(selected)
      ensures selectedEntry == old(selectedEntry) && shortcutsFilter == old(shortcutsFilter)
    {
      rows := rows + [Row(description, shortcut, action)];
    }

    method RefreshShortcuts()
      requires Valid()
      modifies this
      ensures Valid() && State() == Refresh(old(State()), keyOrder, shortcutsFilter)
      ensures selectedEntry == old(selectedEntry) && shortcutsFilter == old(shortcutsFilter)
    {
      assert forall k :: k in keyOrder ==> k in actionKeys;
      rows := [];
      selected := None;
      var i := 0;
      while i < |keyOrder|
        invariant i <= |keyOrder|
        invariant actionKeys == old(actionKeys) && selected.None?
        invariant selectedEntry == old(selectedEntry) && shortcutsFilter == old(shortcutsFilter)
        invariant rows == FilteredRows(actionKeys, keyOrder[..i], shortcutsFilter)
      {
        var key := keyOrder[i];
        assert keyOrder[..i + 1][..i] == keyOrder[..i];
        if MatchesFilter(shortcutsFilter, actionKeys[key].text) {
          AddRow(key, actionKeys[key].text, actionKeys[key].shortcut);
        }
        i := i + 1;
      }
      assert keyOrder[..i] == keyOrder;
      RefreshInv(old(State()), keyOrder, shortcutsFilter);
    }

    /** setFilter (ShortcutsTable.cpp:150-154). */
    method SetFilter(filter: string)
      requires Valid()
      modifies this
      ensures Valid() && State() == Refresh(old(State()), keyOrder, filter)
      ensures selectedEntry == old(selectedEntry) && shortcutsFilter == filter
    {
      shortcutsFilter := filter;
      RefreshShortcuts();
    }

    /** showShortcutPopupMenu (ShortcutsTable.cpp:143-148): `entry` is the row under the click, if any. */
    method ShowShortcutPopupMenu(entry: Option<nat>)
      requires Valid() && (entry.Some? ==> entry.value < |rows|)
      modifies this
      ensures Valid() && State() == old(State())
      ensures selectedEntry == entry && shortcutsFilter == old(shortcutsFilter)
    {
      selectedEntry := entry;
    }

    method ClearSelectedShortcut()
      requires Valid() && (selectedEntry.Some? ==> selectedEntry.value < |rows|)
      modifies this
      ensures Valid() && State() == ClearEntry(old(State()), old(selectedEntry))
      ensures selectedEntry == old(selectedEntry) && shortcutsFilter == old(shortcutsFilter)
    {
      if selectedEntry.Some? {
        var row := selectedEntry.value;
        rows := rows[row := rows[row].(shortcut := "")];
        var name := rows[row].action;
        actionKeys := actionKeys[name := actionKeys[name].(shortcut := "")];
      }
    }

    /**
     * keyPressEvent with the refresh after a refusal (see KeyPress); the warning about a
     * reserved key is not modelled.
     */
    method KeyPressEvent(key: int, shift: bool, ctrl: bool, alt: bool, keyText: int -> string,
                         canonical: string -> string, confirm: (string, string) -> bool)
      requires Valid()
      modifies this
      ensures Valid()
      ensures State() == KeyPress(old(State()), keyOrder, shortcutsFilter, key, shift, ctrl, alt, keyText, canonical, confirm)
      ensures selectedEntry == old(selectedEntry) && shortcutsFilter == old(shortcutsFilter)
    {
      if selected.None? {
        return;
      }
      var modifierText := "";
      if shift {
        modifierText := modifierText + "Shift+";
      }
      if ctrl {
        modifierText := modifierText + "Ctrl+";
      }
      if alt {
        modifierText := modifierText + "Alt+";
      }
      if IgnoredKey(key) {
        return;
      }
      var keySequenceText := modifierText + keyText(key);
      assert keySequenceText == SequenceText(shift, ctrl, alt, keyText(key));
      if ReservedKey(alt, key) {
        return;
      }
      ReassignShortcut(keySequenceText, canonical, confirm);
    }

    /** ShortcutsTable.cpp:94-116 with the refresh after a refusal (see Reassign). */
    method ReassignShortcut(sequence: string, canonical: string -> string, confirm: (string, string) -> bool)
      requires Valid() && selected.Some?
      modifies this
      ensures Valid() && State() == Reassign(old(State()), keyOrder, shortcutsFilter, sequence, canonical, confirm)
      ensures selectedEntry == old(selectedEntry) && shortcutsFilter == old(shortcutsFilter)
    {
      ghost var t := State();
      var cleared, completed, needToRefresh := SweepConflicts(actionKeys, keyOrder, sequence, canonical, confirm);
      ghost var written := ReassignAsWritten(t, keyOrder, shortcutsFilter, sequence, canonical, confirm);
      actionKeys := cleared;
      if !completed {
        assert written == State();
        if needToRefresh {
          RefreshShortcuts();
        }
        return;
      }
      AssignSelected(sequence, canonical(sequence));
      if needToRefresh {
        RefreshShortcuts();
      } else {
        assert written == State();
      }
    }

    /**
     * ShortcutsTable.cpp:110-113: the selected row's cell takes the text as typed, `sequence`,
     * and its action the key sequence that text names, `shortcut` (`QKeySequence(sequence)`
     * in Qt's spelling).
     */
    method AssignSelected(sequence: string, shortcut: string)
      requires Valid() && selected.Some?
      modifies this
      ensures Valid()
      ensures var row := old(selected.value);
        var name := old(rows[row].action);
        && rows == old(rows[row := rows[row].(shortcut := sequence)])
        && actionKeys == old(actionKeys[name := actionKeys[name].(shortcut := shortcut)])
        && selected == old(selected)
      ensures selectedEntry == old(selectedEntry) && shortcutsFilter == old(shortcutsFilter)
    {
      var row := selected.value;
      rows := rows[row := rows[row].(shortcut := sequence)];
      var name := rows[row].action;
      actionKeys := actionKeys[name := actionKeys[name].(shortcut := shortcut)];
    }
  }
}
