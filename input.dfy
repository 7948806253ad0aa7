/**
 * Panel.InputListener (src/menu/elements/Panel.java:314-385): the action listener the panel
 * registers with the engine's input manager. Input names are registered with the menu
 * prefix in front; `onAction` strips it and dispatches on what is left.
 */
module Input {
  import opened Wrappers
  import opened Menu

  /** Panel.menuPrefix, put in front of every input name the menu registers. */
  const MenuPrefix: string := "MGC"

  /** String.startsWith. */
  predicate StartsWith(s: string, prefix: string) {
    |prefix| <= |s| && s[..|prefix|] == prefix
  }

  /** `target` occurs in `s` starting at position `i`. */
  predicate OccursAt(s: string, target: string, i: nat) {
    i + |target| <= |s| && s[i..i + |target|] == target
  }

  /**
   * String.replace(target, ""): deletes every occurrence of the (non-empty) `target`,
   * scanning from the left and resuming after each deleted occurrence. The text is scanned
   * once, so deleting can bring a new occurrence together ("MGMGCC" leaves "MGC").
   */
  function DeleteAll(s: string, target: string): (r: string)
    requires target != []
    ensures |r| <= |s|
    decreases |s|
  {
    if |s| < |target| then s
    else if s[..|target|] == target then DeleteAll(s[|target|..], target)
    else [s[0]] + DeleteAll(s[1..], target)
  }

  /** Deleting an absent target changes nothing. */
  lemma {:induction false} DeleteAllAbsent(s: string, target: string)
    requires target != []
    requires forall i: nat :: !OccursAt(s, target, i)
    ensures DeleteAll(s, target) == s
    decreases |s|
  {
    if |target| <= |s| {
      assert !OccursAt(s, target, 0);
      var rest := s[1..];
      forall i: nat
        ensures !OccursAt(rest, target, i)
      {
        assert !OccursAt(s, target, i + 1);
        if i + |target| <= |rest| {
          assert rest[i..i + |target|] == s[i + 1..i + 1 + |target|];
        }
      }
      DeleteAllAbsent(rest, target);
    }
  }

  /** The name `onAction` dispatches on: the prefix deleted wherever it occurs. */
  function Stripped(name: string): string {
    DeleteAll(name, MenuPrefix)
  }

  /**
   * Registering `MenuPrefix + key` and stripping it on arrival gives `key` back, for every
   * key in which the prefix does not occur.
   */
  lemma StripUndoesPrefix(key: string)
    requires forall i: nat :: !OccursAt(key, MenuPrefix, i)
    ensures StartsWith(MenuPrefix + key, MenuPrefix)
    ensures Stripped(MenuPrefix + key) == key
  {
    var name := MenuPrefix + key;
    assert name[..|MenuPrefix|] == MenuPrefix;
    assert name[|MenuPrefix|..] == key;
    DeleteAllAbsent(key, MenuPrefix);
  }

  /** The four action names the panel registers arrive under their own names. */
  lemma ActionNamesArrive()
    ensures Stripped(MenuPrefix + "LShift") == "LShift"
    ensures Stripped(MenuPrefix + "LCtrl") == "LCtrl"
    ensures Stripped(MenuPrefix + "LButton") == "LButton"
    ensures Stripped(MenuPrefix + "RButton") == "RButton"
  {
    NoPrefixIn("LShift");
    NoPrefixIn("LCtrl");
    NoPrefixIn("LButton");
    NoPrefixIn("RButton");
    StripUndoesPrefix("LShift");
    StripUndoesPrefix("LCtrl");
    StripUndoesPrefix("LButton");
    StripUndoesPrefix("RButton");
  }

  /** A name with no 'M' holds no occurrence of the prefix. */
  lemma NoPrefixIn(key: string)
    requires forall i :: 0 <= i < |key| ==> key[i] != 'M'
    ensures forall i: nat :: !OccursAt(key, MenuPrefix, i)
  {
    forall i: nat
      ensures !OccursAt(key, MenuPrefix, i)
    {
      if i + 3 <= |key| {
        assert key[i..i + 3][0] == key[i];
      }
    }
  }

  class InputListener {
    /** The enclosing Panel whose processClick the listener calls. */
    const panel: MenuElement

    var leftButtonDown: bool
    var ctrlDown: bool
    var shiftDown: bool

    constructor (panel: MenuElement)
      ensures this.panel == panel
      ensures !leftButtonDown && !ctrlDown && !shiftDown
    {
      this.panel := panel;
      leftButtonDown, ctrlDown, shiftDown := false, false, false;
    }

    /**
     * onAction: a name without the menu prefix is ignored. Otherwise, on the stripped name,
     * LShift and LCtrl record their key state, LButton records the button state and has the
     * panel process the press or release (whose notification is returned), and RButton, like
     * any other name, does nothing. `hit` is what the panel's picking ray meets.
     */
    method OnAction(name: string, isPressed: bool, hit: Option<Hit>, ghost rank: map<MenuElement, nat>)
      returns (notified: Option<Click>)
      requires panel.isPanel
      requires (StartsWith(name, MenuPrefix) && Stripped(name) == "LButton" && isPressed &&
                panel.transitions == []) ==> Ranked(rank) && panel in rank
      modifies this, panel`clickedElement
      ensures var key := Stripped(name);
        shiftDown == (if StartsWith(name, MenuPrefix) && key == "LShift" then isPressed else old(shiftDown)) &&
        ctrlDown == (if StartsWith(name, MenuPrefix) && key == "LCtrl" then isPressed else old(ctrlDown)) &&
        leftButtonDown == (if StartsWith(name, MenuPrefix) && key == "LButton" then isPressed else old(leftButtonDown))
      ensures if StartsWith(name, MenuPrefix) && Stripped(name) == "LButton" then
          ClickProcessed(panel, isPressed, hit, rank, notified)
        else
          panel.clickedElement == old(panel.clickedElement) && notified == None
    {
      notified := None;
      if StartsWith(name, MenuPrefix) {
        var key := Stripped(name);
        if key == "LShift" {
          shiftDown := isPressed;
        } else if key == "LCtrl" {
          ctrlDown := isPressed;
        } else if key == "LButton" {
          leftButtonDown := isPressed;
          notified := panel.ProcessClick(isPressed, hit, rank);
        } else if key == "RButton" {
          // A right press or release has no effect.
        }
      }
    }
  }
}
