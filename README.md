# jmonkey-3dmenu: the menu element tree, in Dafny

This project models the bookkeeping core of a clickable 3D menu for the jMonkeyEngine.
The modelled classes are `MenuElement` (src/menu/elements/MenuElement.java) and its composite
subclass `Panel` (src/menu/elements/Panel.java). The 3D engine is abstracted away.

- **The element tree.** A panel holds an ordered list of child elements. Panels nest.
  `findLeaves` flattens the tree into its non-panel elements, in order. `setMaterial` pushes a
  material down the tree, and `add` makes a child without a material inherit the panel's.
- **Inherited attributes.** `getMenuMaterial` and `getMenuFont` walk up the `menuParent` chain to
  the nearest element that has a value.
- **Click focus.** `processClick` does nothing while a transition runs.
  - On a press, the leaf picked by the mouse ray becomes the focused `clickedElement` and is
    notified.
  - On a release, the focused leaf is notified and the focus is cleared.
- **Transitions.** `addTransition` adds the destination panel and records the transition.
  `update` finishes the transitions that are over, removes their source panels and drops them
  from the list.
- **Bounds.** A panel's local bounds fold min/max over its children's bounds and the origin.
- **Input.** The panel's input listener strips the menu prefix from action names. It records the
  Shift, Ctrl and left-button states, and hands left-button events to `processClick`.

## Files

- `menu.dfy`, module `Menu`:
  - one class `MenuElement` for both Java classes; `isPanel` marks a `Panel`;
  - the specification functions: `Leaves`, `Subtree`, `Finished`, `Pending`, `IsFirstMatch`;
  - the two-state predicates `ClickProcessed` and `MaterialInherited`, which state what
    `processClick` and `add` do;
  - the lemmas about transitions.
- `composite.dfy`, module `Composite`: lemmas about leaf collection and picking.
- `input.dfy`, module `Input`: the panel's `InputListener` and the prefix stripping.
- `lists.dfy`, module `Lists`: the `ArrayList` operations the panel uses. These are `remove` and
  `removeAll`, with their order and multiset lemmas.
- `wrappers.dfy`, module `Wrappers`: `Option`, standing for Java's `null`.

## How the engine and the Java heap are modelled

- **Java object identity.** Elements and transitions are Dafny objects, so `ArrayList.remove` and
  `removeAll` compare them by reference. For elements this is what the source does: neither
  `MenuElement` nor `Panel` redefines `equals`. The `Transition` class is not part of this model,
  so reference equality in `transitions.removeAll` is an assumption: that `Transition` does not
  redefine `equals`.
- **Acyclicity is a precondition.** Recursion through the tree ends only when no panel contains
  itself; on such a cycle the source recurses forever. The lookups up the `menuParent` chain stop
  at the first element that has a value, so they fail to end only on a cyclic chain with no value
  set before the walk repeats an element. The model requires both structures to be acyclic.
  That also excludes cyclic chains on which the source does find a value. Recursive operations
  take a ghost map as the witness:
  - `rank`, under which each child ranks below its panel (`Ranked`);
  - `depth`, under which each parent ranks below its child (`ParentRanked`).
- **Picking.** The ray and the engine's collision search are replaced by the closest collision
  they produce, `Option<Hit>`. A `Hit` gives the node that owns the hit geometry, that node's
  scene-graph ancestors, and the contact point. Only the loop that chooses among the candidates is
  modelled.
- **Transitions.** A transition's animation is not modelled. `update(tpf)` followed by `isOver()`
  becomes the input `isOver: Transition -> bool`. `finish()` is not modelled; instead, `Update`
  returns the finished transitions in the order the source calls `finish()` on them.
- **Leaf notifications.** `MenuElement.processClick` is empty in the base class and overridden by
  concrete elements that are not part of this model. So the call a panel makes on a leaf is
  returned as a `Click` value, holding the target, pressed or released, and the cursor.
- **`material`.** Panel.java:398 and 408-410 use a field `material` that the shown `MenuElement`
  does not declare; it declares `menuMaterial`. The model gives every element one
  `material: Option<Material>` field, separate from `menuMaterial`. Only a panel's `setMaterial`
  is in the source; for a leaf, the model assumes `setMaterial` sets its `material` field (see
  "## Left out").
- **`menuParent`.** `add` never sets `menuParent` (Panel.java:405-415). The parent link is
  therefore independent state, and the model does not tie it to the tree.
- **`update` does not update children.** The comment at Panel.java:176 says `update` updates all
  children, but the code only processes transitions. The model follows the code.
- **Floats.** Single-precision floats are modelled as reals.

## Model

| member | source | states |
|---|---|---|
| `Menu.MenuElement.Leaf` | src/menu/elements/MenuElement.java:22-25 | a new element has no font, parent or menu material, and is enabled |
| `Menu.MenuElement.Panel` | src/menu/elements/Panel.java:41-43 | a new panel has no children, no transitions and no focused element |
| `Menu.MenuElement.GetMenuMaterial` | src/menu/elements/MenuElement.java:108-124 | the result is the first non-null `menuMaterial` along the `menuParent` chain from the element itself, and null exactly when the whole chain has none (`IsNearest`) |
| `Menu.MenuElement.SetMenuMaterial` | src/menu/elements/MenuElement.java:126-129 | sets the element's own menu material; once it is non-null, `getMenuMaterial` returns it whatever the ancestors hold |
| `Menu.MenuElement.GetMenuFont` | src/menu/elements/MenuElement.java:134-150 | the result is the nearest non-null font on the `menuParent` chain, and null exactly when the whole chain has none |
| `Menu.MenuElement.SetMenuFont` | src/menu/elements/MenuElement.java:152-155 | sets the own font; a non-null font is then what `getMenuFont` returns |
| `Menu.MenuElement.LineageFollowsParents` | src/menu/elements/MenuElement.java:114-122 | the chain the lookups walk starts at the element (`Lineage`), each entry's `menuParent` is the next entry, and it ends at an element with no parent |
| `Menu.MenuElement.IsEnabled` | src/menu/elements/MenuElement.java:158-161 | returns the enabled flag |
| `Menu.MenuElement.SetEnabled` | src/menu/elements/MenuElement.java:163-166 | afterwards `isEnabled()` returns the value set |
| `Menu.MenuElement.FindLeaves` | src/menu/elements/Panel.java:387-393 | the list comes back with its earlier contents first, followed by every leaf below the element in child order; a leaf appends itself (MenuElement.java:100-103) |
| `Composite.LeavesAreTheNonPanels` | src/menu/elements/Panel.java:387-393 | an element is collected exactly when it is in the subtree and is not a panel: no panel is collected and no leaf is missed |
| `Composite.LeafCollectsItself` | src/menu/elements/MenuElement.java:100-103 | a leaf collects exactly itself, and its subtree is itself alone |
| `Composite.ChildLeavesInOrder` | src/menu/elements/Panel.java:389-392 | the leaves of the first i children are a prefix of what the panel collects |
| `Menu.MenuElement.GetNodeClicked` | src/menu/elements/Panel.java:281-307 | with no collision the result is null; otherwise it is the first candidate, in list order, that is the collided node or one of its ancestors, or null when none is; the contact point is written only when there was a collision |
| `Composite.FirstMatchUnique` | src/menu/elements/Panel.java:295-303 | the selection rule is deterministic: a collision has at most one first match |
| `Composite.PickingSelectsWhenSomeMatch` | src/menu/elements/Panel.java:295-303 | if the k-th candidate matches the collision, null is not returned and the result is among the first k+1 candidates |
| `Menu.MenuElement.ProcessClick` | src/menu/elements/Panel.java:49-85 | while transitions are present nothing changes and no leaf is notified; a press focuses exactly the leaf picked among the panel's leaves, and notifies only it with the contact point; a release notifies the focused leaf, with no cursor, and clears the focus; a release with no focus notifies nobody |
| `Menu.MenuElement.Update` | src/menu/elements/Panel.java:179-213 | the returned transitions are those over, in list order; one occurrence of each one's source is removed from the children, in that order; the transition list keeps exactly those not over |
| `Menu.FinishedMembership` | src/menu/elements/Panel.java:184-198 | a transition is marked for removal exactly when it is in the list and is over, so none left after `update` is over |
| `Menu.FinishedPendingPartition` | src/menu/elements/Panel.java:184-212 | every occurrence of a transition is either finished or kept, never both and never lost |
| `Menu.FinishedPendingKeepOrder` | src/menu/elements/Panel.java:184-212 | both the finished and the kept transitions keep their relative order |
| `Menu.RemovingFinishedLeavesPending` | src/menu/elements/Panel.java:211 | `removeAll` of the marked transitions leaves exactly the transitions not over |
| `Menu.MenuElement.AddTransition` | src/menu/elements/Panel.java:215-221 | the destination is appended to the children and the transition to the transitions; the destination inherits the panel's material as `add` gives it |
| `Menu.MenuElement.GetLocalMinBound` | src/menu/elements/Panel.java:228-239 | each coordinate is at most 0 and at most every child's absolute min bound, and it is 0 or some child's value, so exactly 0 with no children |
| `Menu.MenuElement.GetLocalMaxBound` | src/menu/elements/Panel.java:246-257 | each coordinate is at least 0 and at least every child's absolute max bound, and it is 0 or some child's value |
| `Menu.MenuElement.SetMaterial` | src/menu/elements/Panel.java:396-403 | the element and every element below it through sub-panels now have the given material |
| `Menu.MenuElement.Add` | src/menu/elements/Panel.java:405-415 | the element is appended to the children; if it had no material, it and its whole subtree take the panel's material, and otherwise its material is unchanged |
| `Menu.MenuElement.Remove` | src/menu/elements/Panel.java:417-421 | the first occurrence of the element is deleted from the children; a panel without it is unchanged |
| `Lists.RemoveFirst` | src/menu/elements/Panel.java:420 | `remove(Object)` takes out one occurrence when there is one, nothing otherwise, and leaves every other element |
| `Lists.RemoveFirstKeepsOrder` | src/menu/elements/Panel.java:420 | the elements left keep their order, and the element removed is the first occurrence |
| `Lists.RemoveFirstUndoesAppend` | src/menu/elements/Panel.java:414 | removing an element just added, and held nowhere else, restores the children |
| `Lists.RemoveEachMultiset` | src/menu/elements/Panel.java:203-209 | removing the finished sources one by one takes away exactly one occurrence of each, where there is one |
| `Lists.RemoveEachKeepsOrder` | src/menu/elements/Panel.java:203-209 | the children that remain after those removals keep their order |
| `Lists.RemoveAll` | src/menu/elements/Panel.java:211 | `removeAll` keeps exactly the elements the argument does not contain |
| `Lists.RemoveAllMultiset` | src/menu/elements/Panel.java:211 | `removeAll` drops every occurrence of each element the argument contains and keeps every occurrence of each other element |
| `Lists.RemoveAllKeepsOrder` | src/menu/elements/Panel.java:211 | the elements `removeAll` keeps stay in their order |
| `Input.InputListener.constructor` | src/menu/elements/Panel.java:317-319 | the button and key flags start cleared |
| `Input.InputListener.OnAction` | src/menu/elements/Panel.java:354-384 | a name without the menu prefix changes nothing; LShift, LCtrl and LButton set their own flag to the pressed state and leave the others; only LButton has the panel process the click, with `processClick`'s full effect; RButton and other names change nothing |
| `Input.DeleteAll` | src/menu/elements/Panel.java:359 | deleting the prefix never lengthens a name |
| `Input.DeleteAllAbsent` | src/menu/elements/Panel.java:359 | a name in which the prefix does not occur is left as it is |
| `Input.StripUndoesPrefix` | src/menu/elements/Panel.java:357-359 | a name registered as prefix + key passes the prefix test and strips back to key, for every key without the prefix in it |
| `Input.ActionNamesArrive` | src/menu/elements/Panel.java:139-143 | the four registered action names reach the dispatch as LShift, LCtrl, LButton and RButton |

## Left out

- `Menu.MenuElement.ProcessClick`: requires an acyclic `rank` on every press with no transition
  running. It needs this even when the tree is acyclic, because the rank is the proof of it. The
  same precondition appears on `FindLeaves`, `SetMaterial`, `Add`, `AddTransition` and
  `OnAction`. On a cyclic tree the source does not terminate.
- `Menu.MenuElement.GetMenuMaterial`: requires an acyclic `menuParent` chain, witnessed by
  `depth`. On a cyclic chain with no menu material set before the walk repeats an element, the
  source does not terminate. The model also excludes cyclic chains on which the source does find
  a material (MenuElement.java:110-112 returns it before following the parent).
- `Menu.MenuElement.GetMenuFont`: requires an acyclic `menuParent` chain, witnessed by `depth`. On
  a cyclic chain with no font set before the walk repeats an element, the source does not
  terminate. The model also excludes cyclic chains on which the source does find a font
  (MenuElement.java:136-138 returns it before following the parent).
- `Menu.MenuElement.Update`: assumes that each transition occurs at most once in `transitions`,
  or reports the same `isOver()` at every occurrence. `isOver` is one answer per transition, but
  the source calls `update(tpf)` and `isOver()` once per list entry (Panel.java:184-197). So a
  transition listed twice is advanced twice in one frame and can answer differently at its two
  entries. The source would then finish it and remove its source once, and `removeAll` would drop
  both entries. That case is not modelled.
- `Menu.MenuElement.SetMaterial`: the leaf case of `setMaterial` is not in the shown source.
  Panel.java:401 and 410 call it on leaves, and `MenuElement` does not override it, so a leaf
  runs the engine's inherited `setMaterial` or an override in a leaf class that is not part of
  this model. The model assumes it sets the leaf's `material` field and nothing else. The claims
  that the whole subtree gets the material (`SetMaterial`), and that an added leaf takes the
  panel's material (`Add`, `AddTransition`, `MaterialInherited`), rest on this for leaves. If the
  engine's method leaves the field null instead, a leaf would inherit again each time it is
  added; that reading is not modelled.
- `Input.DeleteAll`: its own contract states only that the name does not grow. What it returns
  for registered names is stated by `DeleteAllAbsent`, `StripUndoesPrefix` and
  `ActionNamesArrive`.
- Ray construction and the collision search (Panel.java:266-278) are engine camera and collision
  calls. Their result is an input, `Option<Hit>`.
- The contact normal written by `getNodeClicked` is not modelled, since no caller uses it.
- `processDrag` (Panel.java:91-121) is left out. It is floating-point projection through engine
  transforms.
- `register` and `unRegister` (Panel.java:127-173) are left out. They are input-manager mappings
  and asset loading. `ActionNamesArrive` covers only the names they register.
- `onAnalog` (Panel.java:326-348) is left out. It only forwards to `processDrag`, and it never
  uses the wheel step it computes.
- `menuPrefix` is a mutable public static in the source. It is modelled as the constant "MGC".
- `getAbsolute*Bound` and `getRelative*Bound` (MenuElement.java:63-93) are left out. They are
  engine transform arithmetic. The children's absolute bounds are an input of the bound
  methods.
- The rotation that `setEnabled` applies (MenuElement.java:167-176) is engine state and is not
  modelled.
- The internals of `Transition`, `Jme3DFont` and `Material` are not part of this model, because
  their classes are not shown. `Transition.update(tpf)`, `isOver()` and `finish()` are
  represented as described above, and `tpf` is dropped.
- Scene-graph `attachChild` and `detachChild` in `add` and `remove` are engine calls. Only the
  `menuElements` list is modelled.
- The overridable leaf behaviour of `processClick`, `processKey`, `processDrag`, `processWheel`,
  `update` and `refresh` is not modelled. It is empty or abstract in `MenuElement`, and the
  notifications are returned instead.
- Single-precision rounding and NaN in the bounds fold are not modelled, because coordinates are
  reals.
