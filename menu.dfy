/**
 * The element hierarchy of a 3D menu: MenuElement (src/menu/elements/MenuElement.java) and
 * its composite subclass Panel (src/menu/elements/Panel.java), with the 3D engine left out.
 *
 * Both are modelled by the one class `MenuElement`; `isPanel` tells a Panel from a leaf
 * element (a button, a slider, ...). The Panel-only fields `menuElements`, `transitions`
 * and `clickedElement` are not used on leaves, and the Panel operations require `isPanel`.
 *
 * Operations that recurse through the composite (findLeaves, setMaterial, and add, which
 * calls setMaterial) terminate only when no panel contains itself, directly or through
 * sub-panels; the source then recurses forever. The model takes a ghost `rank` that
 * witnesses this: every child of a panel ranks lower than the panel (`Ranked`). The
 * ancestor lookups follow `menuParent` and likewise take a ghost `depth` (`ParentRanked`).
 */
module Menu {
  import opened Wrappers
  import Lists

  /** A material of the 3D engine; only its identity matters here. */
  datatype Material = Material(handle: nat)

  /** A 3D font of the engine; only its identity matters here. */
  datatype Font = Font(handle: nat)

  /** A point of 3D space. The source's single-precision floats are modelled as reals. */
  datatype Vec3 = Vec3(x: real, y: real, z: real)

  /**
   * The closest collision of the picking ray, as the engine reports it: the scene-graph
   * node owning the geometry that was hit, that node's scene-graph ancestors, and the
   * contact point.
   */
  datatype Hit = Hit(node: object, ancestors: set<object>, contactPoint: Vec3)

  /** A call `target.processClick(pressed, cursor)` that a panel makes on one of its leaves. */
  datatype Click = Click(target: MenuElement, pressed: bool, cursor: Option<Vec3>)

  /**
   * A transition from a source panel to a destination panel. Its animation state is not
   * modelled: what `update(tpf)` leaves `isOver()` reporting is an input of `Update`.
   */
  class Transition {
    const source: MenuElement
    const destination: MenuElement

    constructor (source: MenuElement, destination: MenuElement)
      ensures this.source == source && this.destination == destination
    {
      this.source := source;
      this.destination := destination;
    }
  }

  /** The sources of the given transitions, in order. */
  function Sources(ts: seq<Transition>): (r: seq<MenuElement>)
    ensures |r| == |ts|
    decreases |ts|
  {
    if ts == [] then [] else Sources(ts[..|ts| - 1]) + [ts[|ts| - 1].source]
  }

  /** The transitions that report being over, in order: the `toRemove` list of Panel.update. */
  function Finished(ts: seq<Transition>, isOver: Transition -> bool): seq<Transition>
    decreases |ts|
  {
    if ts == [] then []
    else Finished(ts[..|ts| - 1], isOver) + (if isOver(ts[|ts| - 1]) then [ts[|ts| - 1]] else [])
  }

  /** The transitions that are still running, in order. */
  function Pending(ts: seq<Transition>, isOver: Transition -> bool): seq<Transition>
    decreases |ts|
  {
    if ts == [] then []
    else Pending(ts[..|ts| - 1], isOver) + (if isOver(ts[|ts| - 1]) then [] else [ts[|ts| - 1]])
  }

  /** Whether the collision `h` is on `n`: the hit node is `n` or lies below it in the scene graph. */
  predicate Matches(h: Hit, n: MenuElement) {
    h.node == n || n in h.ancestors
  }

  /**
   * `node` is what picking returns among `candidates`: with no collision, null; otherwise the
   * first candidate, in list order, that the collision is on, or null when there is none.
   */
  ghost predicate IsFirstMatch(candidates: seq<MenuElement>, hit: Option<Hit>, node: MenuElement?) {
    match hit
    case None => node == null
    case Some(h) =>
      if node == null then
        forall i :: 0 <= i < |candidates| ==> !Matches(h, candidates[i])
      else
        exists i :: 0 <= i < |candidates| && candidates[i] == node && Matches(h, node) &&
          forall j :: 0 <= j < i ==> !Matches(h, candidates[j])
  }

  /** The contact point picking writes back: only when there was a collision. */
  function ContactOf(hit: Option<Hit>): Option<Vec3> {
    match hit
    case None => None
    case Some(h) => Some(h.contactPoint)
  }

  /** No panel reachable from `rank`'s keys contains itself: each child ranks below its panel. */
  ghost predicate Ranked(rank: map<MenuElement, nat>)
    reads rank.Keys`menuElements
  {
    forall e, c :: e in rank && e.isPanel && c in e.menuElements ==> c in rank && rank[c] < rank[e]
  }

  /** The `menuParent` chain of no element in `depth` returns to it: each parent has a lower depth. */
  ghost predicate ParentRanked(depth: map<MenuElement, nat>)
    reads depth.Keys`menuParent
  {
    forall e :: e in depth && e.menuParent != null ==> e.menuParent in depth && depth[e.menuParent] < depth[e]
  }

  /**
   * `r` is the first value set in `vals`, or None exactly when none is set: what a lookup
   * that tries each value in turn returns.
   */
  ghost predicate IsNearest<T>(vals: seq<Option<T>>, r: Option<T>) {
    (r == None <==> forall i :: 0 <= i < |vals| ==> vals[i] == None) &&
    (r != None ==> exists i :: 0 <= i < |vals| && vals[i] == r && forall j :: 0 <= j < i ==> vals[j] == None)
  }

  lemma NearestOfOwn<T>(v: Option<T>, rest: seq<Option<T>>)
    requires v != None
    ensures IsNearest([v] + rest, v)
  {
    assert ([v] + rest)[0] == v;
  }

  lemma NearestPastNone<T>(rest: seq<Option<T>>, r: Option<T>)
    requires IsNearest(rest, r)
    ensures IsNearest([None] + rest, r)
  {
    var vals := [None] + rest;
    assert forall k :: 0 < k < |vals| ==> vals[k] == rest[k - 1];
    if r != None {
      var i :| 0 <= i < |rest| && rest[i] == r && forall j :: 0 <= j < i ==> rest[j] == None;
      assert vals[i + 1] == r;
    }
  }

  /** The menu materials set along `chain`, in order. */
  ghost function MenuMaterials(chain: seq<MenuElement>): (vals: seq<Option<Material>>)
    reads (set x | x in chain)`menuMaterial
    ensures |vals| == |chain|
  {
    if chain == [] then [] else [chain[0].menuMaterial] + MenuMaterials(chain[1..])
  }

  /** The menu fonts set along `chain`, in order. */
  ghost function MenuFonts(chain: seq<MenuElement>): (vals: seq<Option<Font>>)
    reads (set x | x in chain)`menuFont
    ensures |vals| == |chain|
  {
    if chain == [] then [] else [chain[0].menuFont] + MenuFonts(chain[1..])
  }

  /** The leaves `findLeaves` collects below `e`: `e` itself for a leaf, its children's leaves in order for a panel. */
  ghost function Leaves(e: MenuElement, rank: map<MenuElement, nat>): seq<MenuElement>
    reads rank.Keys`menuElements
    requires Ranked(rank) && e in rank
    decreases rank[e], 1
  {
    if e.isPanel then LeavesOf(e.menuElements, rank, rank[e]) else [e]
  }

  /** The leaves of each of `cs`, concatenated in order. */
  ghost function LeavesOf(cs: seq<MenuElement>, rank: map<MenuElement, nat>, bound: nat): seq<MenuElement>
    reads rank.Keys`menuElements
    requires Ranked(rank) && forall c :: c in cs ==> c in rank && rank[c] < bound
    decreases bound, 0, |cs|
  {
    if cs == [] then []
    else LeavesOf(cs[..|cs| - 1], rank, bound) + Leaves(cs[|cs| - 1], rank)
  }

  /** `e` and every element below it, through sub-panels. */
  ghost function Subtree(e: MenuElement, rank: map<MenuElement, nat>): (r: set<MenuElement>)
    reads rank.Keys`menuElements
    requires Ranked(rank) && e in rank
    ensures e in r && r <= rank.Keys
    decreases rank[e], 1
  {
    {e} + if e.isPanel then SubtreesOf(e.menuElements, rank, rank[e]) else {}
  }

  /** The union of the subtrees of `cs`. */
  ghost function SubtreesOf(cs: seq<MenuElement>, rank: map<MenuElement, nat>, bound: nat): (r: set<MenuElement>)
    reads rank.Keys`menuElements
    requires Ranked(rank) && forall c :: c in cs ==> c in rank && rank[c] < bound
    ensures r <= rank.Keys
    ensures forall i :: 0 <= i < |cs| ==> Subtree(cs[i], rank) <= r
    decreases bound, 0, |cs|
  {
    if cs == [] then {}
    else SubtreesOf(cs[..|cs| - 1], rank, bound) + Subtree(cs[|cs| - 1], rank)
  }

  class MenuElement {
    /** True for a Panel, false for a leaf element. */
    const isPanel: bool

    // The fields of MenuElement. `null` values are `None`.
    var menuFont: Option<Font>
    var menuParent: MenuElement?
    var menuMaterial: Option<Material>
    var enabled: bool
    /** The engine material that Panel reads and writes; see README. */
    var material: Option<Material>

    // The fields of Panel.
    var menuElements: seq<MenuElement>
    var transitions: seq<Transition>
    var clickedElement: MenuElement?

    /** A leaf element with MenuElement's initial field values. */
    constructor Leaf()
      ensures !isPanel && enabled
      ensures menuFont == None && menuParent == null && menuMaterial == None && material == None
      ensures menuElements == [] && transitions == [] && clickedElement == null
    {
      isPanel := false;
      menuFont, menuParent, menuMaterial, enabled, material := None, null, None, true, None;
      menuElements, transitions, clickedElement := [], [], null;
    }

    /** An empty panel with the initial field values of MenuElement and Panel. */
    constructor Panel()
      ensures isPanel && enabled
      ensures menuFont == None && menuParent == null && menuMaterial == None && material == None
      ensures menuElements == [] && transitions == [] && clickedElement == null
    {
      isPanel := true;
      menuFont, menuParent, menuMaterial, enabled, material := None, null, None, true, None;
      menuElements, transitions, clickedElement := [], [], null;
    }

    // ---------------------------------------------------------------- MenuElement

    /** The elements from this one up the `menuParent` chain to the element that has no parent. */
    ghost function Lineage(depth: map<MenuElement, nat>): (chain: seq<MenuElement>)
      reads depth.Keys`menuParent
      requires ParentRanked(depth) && this in depth
      ensures |chain| > 0 && chain[0] == this
      ensures forall i :: 0 <= i < |chain| ==> chain[i] in depth
      decreases depth[this]
    {
      if menuParent == null then [this] else [this] + menuParent.Lineage(depth)
    }

    /** The lineage follows the parent links from the element to the root of its chain. */
    lemma {:induction false} LineageFollowsParents(depth: map<MenuElement, nat>)
      requires ParentRanked(depth) && this in depth
      ensures var chain := Lineage(depth);
        (forall i :: 0 <= i < |chain| - 1 ==> chain[i].menuParent == chain[i + 1]) &&
        chain[|chain| - 1].menuParent == null
      decreases depth[this]
    {
      if menuParent != null {
        menuParent.LineageFollowsParents(depth);
        var chain, up := Lineage(depth), menuParent.Lineage(depth);
        assert chain == [this] + up;
        assert forall k :: 0 < k < |chain| ==> chain[k] == up[k - 1];
      }
    }

    /** The lineage is this element followed by its parent's lineage. */
    lemma LineageStep(depth: map<MenuElement, nat>)
      requires ParentRanked(depth) && this in depth
      ensures menuParent == null ==> Lineage(depth) == [this]
      ensures menuParent != null ==> Lineage(depth) == [this] + menuParent.Lineage(depth)
    {
    }

    /**
     * getMenuMaterial: the nearest material set on this element's `menuParent` chain, None
     * when the whole chain has none.
     */
    function GetMenuMaterial(ghost depth: map<MenuElement, nat>): (r: Option<Material>)
      reads depth.Keys`menuParent, depth.Keys`menuMaterial
      requires ParentRanked(depth) && this in depth
      ensures IsNearest(MenuMaterials(Lineage(depth)), r)
      decreases depth[this]
    {
      LineageStep(depth);
      var up := if menuParent == null then [] else menuParent.Lineage(depth);
      assert MenuMaterials([this] + up) == [menuMaterial] + MenuMaterials(up) by {
        assert ([this] + up)[1..] == up;
      }
      if menuMaterial != None then
        NearestOfOwn(menuMaterial, MenuMaterials(up));
        menuMaterial
      else if menuParent != null then
        var r := menuParent.GetMenuMaterial(depth);
        NearestPastNone(MenuMaterials(up), r);
        r
      else
        None
    }

    method SetMenuMaterial(m: Option<Material>)
      modifies this`menuMaterial
      ensures menuMaterial == m
      ensures m != None ==>
        forall depth :: ParentRanked(depth) && this in depth ==> GetMenuMaterial(depth) == m
    {
      menuMaterial := m;
    }

    /** getMenuFont: the nearest font set on the `menuParent` chain, None when there is none. */
    function GetMenuFont(ghost depth: map<MenuElement, nat>): (r: Option<Font>)
      reads depth.Keys`menuParent, depth.Keys`menuFont
      requires ParentRanked(depth) && this in depth
      ensures IsNearest(MenuFonts(Lineage(depth)), r)
      decreases depth[this]
    {
      LineageStep(depth);
      var up := if menuParent == null then [] else menuParent.Lineage(depth);
      assert MenuFonts([this] + up) == [menuFont] + MenuFonts(up) by {
        assert ([this] + up)[1..] == up;
      }
      if menuFont != None then
        NearestOfOwn(menuFont, MenuFonts(up));
        menuFont
      else if menuParent != null then
        var r := menuParent.GetMenuFont(depth);
        NearestPastNone(MenuFonts(up), r);
        r
      else
        None
    }

    method SetMenuFont(f: Option<Font>)
      modifies this`menuFont
      ensures menuFont == f
      ensures f != None ==>
        forall depth :: ParentRanked(depth) && this in depth ==> GetMenuFont(depth) == f
    {
      menuFont := f;
    }

    /** isEnabled: whether the element is enabled. */
    function IsEnabled(): (r: bool)
      reads this`enabled
      ensures r <==> enabled
    {
      enabled
    }

    method SetEnabled(b: bool)
      modifies this`enabled
      ensures IsEnabled() == b
    {
      enabled := b;
    }

    /**
     * findLeaves: appends to `candidates` every leaf below this element, in order; a leaf
     * appends itself. The caller's list is passed in and the extended list returned.
     */
    method FindLeaves(candidates: seq<MenuElement>, ghost rank: map<MenuElement, nat>) returns (result: seq<MenuElement>)
      requires Ranked(rank) && this in rank
      ensures result == candidates + Leaves(this, rank)
      decreases rank[this]
    {
      if !isPanel {
        result := candidates + [this];
      } else {
        result := candidates;
        var i := 0;
        while i < |menuElements|
          invariant 0 <= i <= |menuElements|
          invariant result == candidates + LeavesOf(menuElements[..i], rank, rank[this])
        {
          assert menuElements[..i + 1][..i] == menuElements[..i];
          result := menuElements[i].FindLeaves(result, rank);
          i := i + 1;
        }
        assert menuElements[..|menuElements|] == menuElements;
      }
    }

    // ---------------------------------------------------------------- Panel

    /**
     * The candidate-selection part of getNodeClicked: given the closest collision of the
     * picking ray, the first candidate the collision is on. The contact point is written
     * back only when there was a collision.
     */
    method GetNodeClicked(candidates: seq<MenuElement>, hit: Option<Hit>) returns (node: MenuElement?, contactPoint: Option<Vec3>)
      ensures IsFirstMatch(candidates, hit, node)
      ensures contactPoint == ContactOf(hit)
    {
      node, contactPoint := null, None;
      if hit.Some? {
        contactPoint := Some(hit.value.contactPoint);
        var i := 0;
        while i < |candidates|
          invariant 0 <= i <= |candidates|
          invariant forall j :: 0 <= j < i ==> !Matches(hit.value, candidates[j])
        {
          if Matches(hit.value, candidates[i]) {
            node := candidates[i];
            return;
          }
          i := i + 1;
        }
      }
    }

    /**
     * processClick: ignored while a transition runs. A press focuses the leaf the ray hits
     * (or nothing) and notifies it; a release notifies the focused leaf and clears the focus.
     * The notification made, if any, is returned.
     */
    method ProcessClick(pressed: bool, hit: Option<Hit>, ghost rank: map<MenuElement, nat>) returns (notified: Option<Click>)
      requires isPanel
      requires pressed && transitions == [] ==> Ranked(rank) && this in rank
      modifies this`clickedElement
      ensures ClickProcessed(this, pressed, hit, rank, notified)
    {
      notified := None;
      if transitions == [] {
        if pressed {
          var candidates := FindLeaves([], rank);
          assert candidates == Leaves(this, rank);
          var nodeAimed, contactPoint := GetNodeClicked(candidates, hit);
          if nodeAimed != null {
            notified := Some(Click(nodeAimed, true, contactPoint));
          }
          clickedElement := nodeAimed;
        } else if clickedElement != null {
          notified := Some(Click(clickedElement, false, None));
          clickedElement := null;
        }
      }
    }

    /**
     * update: marks the transitions that are over, then finishes each of them in order and
     * removes its source from the children, then drops them from `transitions`. `isOver`
     * tells what each transition reports after its own `update(tpf)` step. The transitions
     * finished are returned in the order `finish()` is called on them.
     */
    method Update(isOver: Transition -> bool) returns (finished: seq<Transition>)
      requires isPanel
      modifies this`menuElements, this`transitions
      ensures finished == Finished(old(transitions), isOver)
      ensures transitions == Pending(old(transitions), isOver)
      ensures menuElements == Lists.RemoveEach(old(menuElements), Sources(finished))
    {
      var toRemove: seq<Transition> := [];
      var ts := transitions;
      for i := 0 to |ts|
        invariant transitions == ts && menuElements == old(menuElements)
        invariant toRemove == Finished(ts[..i], isOver)
      {
        FinishedPrefixStep(ts, i, isOver);
        if isOver(ts[i]) {
          toRemove := toRemove + [ts[i]];
        }
      }
      assert ts[..|ts|] == ts;
      for j := 0 to |toRemove|
        invariant transitions == ts
        invariant menuElements == Lists.RemoveEach(old(menuElements), Sources(toRemove[..j]))
      {
        SourcesPrefixStep(toRemove, j);
        Lists.RemoveEachStep(old(menuElements), Sources(toRemove[..j]), toRemove[j].source);
        Remove(toRemove[j].source);
      }
      assert toRemove[..|toRemove|] == toRemove;
      RemovingFinishedLeavesPending(ts, toRemove, isOver);
      transitions := Lists.RemoveAll(ts, toRemove);
      finished := toRemove;
    }

    /** addTransition: adds the destination panel as a child, then appends the transition. */
    method AddTransition(t: Transition, ghost rank: map<MenuElement, nat>)
      requires isPanel
      requires t.destination.material == None ==> Ranked(rank) && t.destination in rank
      modifies this`menuElements, this`transitions
      modifies (if t.destination.material == None then Subtree(t.destination, rank) else {})`material
      ensures menuElements == old(menuElements) + [t.destination]
      ensures transitions == old(transitions) + [t]
      ensures MaterialInherited(this, t.destination, rank)
    {
      Add(t.destination, rank);
      transitions := transitions + [t];
    }

    /**
     * The minimum, coordinate by coordinate, of the origin and of every child's absolute
     * minimum bound; the origin when there is no child. `absoluteMin` gives the child bounds.
     */
    method GetLocalMinBound(absoluteMin: MenuElement -> Vec3) returns (r: Vec3)
      requires isPanel
      ensures r.x <= 0.0 && r.y <= 0.0 && r.z <= 0.0
      ensures forall e :: e in menuElements ==>
        r.x <= absoluteMin(e).x && r.y <= absoluteMin(e).y && r.z <= absoluteMin(e).z
      ensures r.x == 0.0 || exists e :: e in menuElements && r.x == absoluteMin(e).x
      ensures r.y == 0.0 || exists e :: e in menuElements && r.y == absoluteMin(e).y
      ensures r.z == 0.0 || exists e :: e in menuElements && r.z == absoluteMin(e).z
    {
      r := Vec3(0.0, 0.0, 0.0);
      var i := 0;
      while i < |menuElements|
        invariant 0 <= i <= |menuElements|
        invariant r.x <= 0.0 && r.y <= 0.0 && r.z <= 0.0
        invariant forall e :: e in menuElements[..i] ==>
          r.x <= absoluteMin(e).x && r.y <= absoluteMin(e).y && r.z <= absoluteMin(e).z
        invariant r.x == 0.0 || exists e :: e in menuElements[..i] && r.x == absoluteMin(e).x
        invariant r.y == 0.0 || exists e :: e in menuElements[..i] && r.y == absoluteMin(e).y
        invariant r.z == 0.0 || exists e :: e in menuElements[..i] && r.z == absoluteMin(e).z
      {
        var currentBound := absoluteMin(menuElements[i]);
        assert menuElements[..i + 1] == menuElements[..i] + [menuElements[i]];
        r := Vec3(Min(r.x, currentBound.x), Min(r.y, currentBound.y), Min(r.z, currentBound.z));
        i := i + 1;
      }
      assert menuElements[..|menuElements|] == menuElements;
    }

    /**
     * The maximum, coordinate by coordinate, of the origin and of every child's absolute
     * maximum bound; the origin when there is no child. `absoluteMax` gives the child bounds.
     */
    method GetLocalMaxBound(absoluteMax: MenuElement -> Vec3) returns (r: Vec3)
      requires isPanel
      ensures r.x >= 0.0 && r.y >= 0.0 && r.z >= 0.0
      ensures forall e :: e in menuElements ==>
        r.x >= absoluteMax(e).x && r.y >= absoluteMax(e).y && r.z >= absoluteMax(e).z
      ensures r.x == 0.0 || exists e :: e in menuElements && r.x == absoluteMax(e).x
      ensures r.y == 0.0 || exists e :: e in menuElements && r.y == absoluteMax(e).y
      ensures r.z == 0.0 || exists e :: e in menuElements && r.z == absoluteMax(e).z
    {
      r := Vec3(0.0, 0.0, 0.0);
      var i := 0;
      while i < |menuElements|
        invariant 0 <= i <= |menuElements|
        invariant r.x >= 0.0 && r.y >= 0.0 && r.z >= 0.0
        invariant forall e :: e in menuElements[..i] ==>
          r.x >= absoluteMax(e).x && r.y >= absoluteMax(e).y && r.z >= absoluteMax(e).z
        invariant r.x == 0.0 || exists e :: e in menuElements[..i] && r.x == absoluteMax(e).x
        invariant r.y == 0.0 || exists e :: e in menuElements[..i] && r.y == absoluteMax(e).y
        invariant r.z == 0.0 || exists e :: e in menuElements[..i] && r.z == absoluteMax(e).z
      {
        var currentBound := absoluteMax(menuElements[i]);
        assert menuElements[..i + 1] == menuElements[..i] + [menuElements[i]];
        r := Vec3(Max(r.x, currentBound.x), Max(r.y, currentBound.y), Max(r.z, currentBound.z));
        i := i + 1;
      }
      assert menuElements[..|menuElements|] == menuElements;
    }

    /**
     * setMaterial: sets `material` on this element and, for a panel, through every child
     * and sub-panel below it. Nothing outside the subtree changes. A panel's case is
     * Panel.setMaterial; a leaf's case is taken to set the leaf's own `material` field.
     */
    method SetMaterial(m: Option<Material>, ghost rank: map<MenuElement, nat>)
      requires Ranked(rank) && this in rank
      modifies Subtree(this, rank)`material
      ensures forall x :: x in Subtree(this, rank) ==> x.material == m
      decreases rank[this]
    {
      material := m;
      if isPanel {
        var i := 0;
        while i < |menuElements|
          invariant 0 <= i <= |menuElements|
          invariant material == m
          invariant forall x :: x in SubtreesOf(menuElements[..i], rank, rank[this]) ==> x.material == m
        {
          assert menuElements[..i + 1][..i] == menuElements[..i];
          menuElements[i].SetMaterial(m, rank);
          i := i + 1;
        }
        assert menuElements[..|menuElements|] == menuElements;
      }
    }

    /**
     * add: an element without a material first takes this panel's (through its whole
     * subtree, if it is a panel); then it is appended to the children.
     */
    method Add(c: MenuElement, ghost rank: map<MenuElement, nat>)
      requires isPanel
      requires c.material == None ==> Ranked(rank) && c in rank
      modifies this`menuElements
      modifies (if c.material == None then Subtree(c, rank) else {})`material
      ensures menuElements == old(menuElements) + [c]
      ensures MaterialInherited(this, c, rank)
    {
      if c.material == None {
        c.SetMaterial(material, rank);
      }
      menuElements := menuElements + [c];
    }

    /** remove: deletes the first occurrence of `c` from the children, if there is one. */
    method Remove(c: MenuElement)
      requires isPanel
      modifies this`menuElements
      ensures menuElements == Lists.RemoveFirst(old(menuElements), c)
    {
      menuElements := Lists.RemoveFirst(menuElements, c);
    }
  }

  function Min(a: real, b: real): real { if a <= b then a else b }

  function Max(a: real, b: real): real { if a >= b then a else b }

  /**
   * The effect of Panel.processClick on panel `p`: nothing while a transition runs; on a
   * press, the focus becomes the leaf picking selects among `p`'s leaves, which alone is
   * notified; on a release, the focused leaf, if any, is notified and the focus cleared.
   */
  twostate predicate ClickProcessed(p: MenuElement, pressed: bool, hit: Option<Hit>, rank: map<MenuElement, nat>, new notified: Option<Click>)
    requires old(pressed && p.transitions == [] ==> Ranked(rank) && p in rank)
    reads p`transitions, p`clickedElement
  {
    if old(p.transitions) != [] then
      p.clickedElement == old(p.clickedElement) && notified == None
    else if pressed then
      IsFirstMatch(old(Leaves(p, rank)), hit, p.clickedElement) &&
      notified == (if p.clickedElement == null then None
                   else Some(Click(p.clickedElement, true, ContactOf(hit))))
    else
      p.clickedElement == null &&
      notified == (if old(p.clickedElement) == null then None
                   else Some(Click(old(p.clickedElement), false, None)))
  }

  /**
   * The material rule of Panel.add: if the added element had no material, it and every
   * element below it now have the panel's material; otherwise no material changed.
   */
  twostate predicate MaterialInherited(p: MenuElement, c: MenuElement, rank: map<MenuElement, nat>)
    requires old(c.material == None ==> Ranked(rank) && c in rank)
    reads p`material, c`material, rank.Keys`material
  {
    if old(c.material) == None then
      forall x :: x in old(Subtree(c, rank)) ==> x.material == old(p.material)
    else
      c.material == old(c.material)
  }

  /** One more step of the marking loop of Panel.update. */
  lemma FinishedPrefixStep(ts: seq<Transition>, i: nat, isOver: Transition -> bool)
    requires i < |ts|
    ensures Finished(ts[..i + 1], isOver) == Finished(ts[..i], isOver) + (if isOver(ts[i]) then [ts[i]] else [])
  {
    assert ts[..i + 1][..i] == ts[..i];
  }

  lemma SourcesPrefixStep(ts: seq<Transition>, j: nat)
    requires j < |ts|
    ensures Sources(ts[..j + 1]) == Sources(ts[..j]) + [ts[j].source]
  {
    assert ts[..j + 1][..j] == ts[..j];
  }

  /** A transition is finished exactly when it is one of `ts` and reports being over. */
  lemma {:induction false} FinishedMembership(ts: seq<Transition>, isOver: Transition -> bool)
    ensures forall t :: t in Finished(ts, isOver) <==> t in ts && isOver(t)
    ensures forall t :: t in Pending(ts, isOver) <==> t in ts && !isOver(t)
    decreases |ts|
  {
    if ts != [] {
      var init := ts[..|ts| - 1];
      assert ts == init + [ts[|ts| - 1]];
      FinishedMembership(init, isOver);
    }
  }

  /** Every transition is either finished or pending, as often as it occurs in `ts`. */
  lemma {:induction false} FinishedPendingPartition(ts: seq<Transition>, isOver: Transition -> bool)
    ensures multiset(Finished(ts, isOver)) + multiset(Pending(ts, isOver)) == multiset(ts)
    decreases |ts|
  {
    if ts != [] {
      var init := ts[..|ts| - 1];
      assert ts == init + [ts[|ts| - 1]];
      FinishedPendingPartition(init, isOver);
    }
  }

  /** Both the finished and the pending transitions keep their relative order. */
  lemma {:induction false} FinishedPendingKeepOrder(ts: seq<Transition>, isOver: Transition -> bool)
    ensures Lists.IsSubsequence(Finished(ts, isOver), ts)
    ensures Lists.IsSubsequence(Pending(ts, isOver), ts)
    decreases |ts|
  {
    if ts != [] {
      var init, last := ts[..|ts| - 1], ts[|ts| - 1];
      assert ts == init + [last];
      FinishedPendingKeepOrder(init, isOver);
      if isOver(last) {
        var f := Finished(ts, isOver);
        assert f == Finished(init, isOver) + [last];
        assert f[..|f| - 1] == Finished(init, isOver);
        assert Pending(ts, isOver) == Pending(init, isOver);
        Lists.SubsequenceExtend(Pending(init, isOver), init, last);
      } else {
        var p := Pending(ts, isOver);
        assert p == Pending(init, isOver) + [last];
        assert p[..|p| - 1] == Pending(init, isOver);
        assert Finished(ts, isOver) == Finished(init, isOver);
        Lists.SubsequenceExtend(Finished(init, isOver), init, last);
      }
    }
  }

  /** Removing the finished transitions, as removeAll does, leaves exactly the pending ones. */
  lemma {:induction false} RemovingFinishedLeavesPending(ts: seq<Transition>, finished: seq<Transition>, isOver: Transition -> bool)
    requires finished == Finished(ts, isOver)
    ensures Lists.RemoveAll(ts, finished) == Pending(ts, isOver)
  {
    FinishedMembership(ts, isOver);
    RemoveAllByMembership(ts, finished, isOver);
  }

  lemma {:induction false} RemoveAllByMembership(ts: seq<Transition>, r: seq<Transition>, isOver: Transition -> bool)
    requires forall i :: 0 <= i < |ts| ==> (ts[i] in r <==> isOver(ts[i]))
    ensures Lists.RemoveAll(ts, r) == Pending(ts, isOver)
    decreases |ts|
  {
    if ts != [] {
      RemoveAllByMembership(ts[..|ts| - 1], r, isOver);
    }
  }
}
