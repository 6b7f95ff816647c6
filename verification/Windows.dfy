/** The emulator's window table: every operation on it and what it tells the host. */
module Windows {
  import opened Common
  import opened WindowTree
  import opened WindowOrder
  import opened WindowHost

  const U64_LIMIT := 0x1_0000_0000_0000_0000

  // The SetWindowPos flags the emulator looks at.

  predicate NoSize(flags: nat) { flags % 2 == 1 }

  predicate NoMove(flags: nat) { flags / 2 % 2 == 1 }

  predicate NoZOrder(flags: nat) { flags / 4 % 2 == 1 }

  predicate ShowFlag(flags: nat) { flags / 0x40 % 2 == 1 }

  /** The 32-bit number read as a signed one. */
  function ToI32(v: nat): (r: int)
    ensures -0x8000_0000 <= r < 0x8000_0000 && (r - v) % 0x1_0000_0000 == 0
  {
    var low := v % 0x1_0000_0000;
    assert v == v / 0x1_0000_0000 * 0x1_0000_0000 + low;
    if low < 0x8000_0000 then low else low - 0x1_0000_0000
  }

  /** Hiding is not among the flags it honours. */
  function Placed(w: Window, x: nat, y: nat, cx: nat, cy: nat, flags: nat): Window {
    w.(x := if NoMove(flags) then w.x else ToI32(x), y := if NoMove(flags) then w.y else ToI32(y),
       width := if NoSize(flags) then w.width else ToI32(cx), height := if NoSize(flags) then w.height else ToI32(cy),
       visible := w.visible || ShowFlag(flags))
  }

  predicate SignedOf(r: int, v: nat) {
    -0x8000_0000 <= r < 0x8000_0000 && (r - v) % 0x1_0000_0000 == 0
  }

  /** What the flags mean, bit by bit: 0x2 keeps the position, 0x1 the size, and without them
      they become the arguments read as signed numbers; 0x40 shows the window; nothing else
      about it changes. */
  predicate PlacedBy(was: Window, now: Window, x: nat, y: nat, cx: nat, cy: nat, flags: nat) {
    && (flags / 2 % 2 == 1 ==> now.x == was.x && now.y == was.y)
    && (flags / 2 % 2 == 0 ==> SignedOf(now.x, x) && SignedOf(now.y, y))
    && (flags % 2 == 1 ==> now.width == was.width && now.height == was.height)
    && (flags % 2 == 0 ==> SignedOf(now.width, cx) && SignedOf(now.height, cy))
    && (now.visible <==> was.visible || flags / 64 % 2 == 1)
    && SameStyle(was, now)
  }

  lemma PlacedFields(w: Window, x: nat, y: nat, cx: nat, cy: nat, flags: nat)
    ensures PlacedBy(w, Placed(w, x, y, cx, cy, flags), x, y, cx, cy, flags)
    ensures Placed(w, x, y, cx, cy, flags).zOrder == w.zOrder
  {
  }

  predicate SameStyle(a: Window, b: Window) {
    && a.parent == b.parent && a.child == b.child && a.clipChildren == b.clipChildren
    && a.clipSiblings == b.clipSiblings && a.insetLeft == b.insetLeft && a.insetTop == b.insetTop
    && a.insetRight == b.insetRight && a.insetBottom == b.insetBottom
  }

  function MoveOf(t: Tree, h: int): UiCommand
    requires h in t
  {
    UiCommand.MoveWindow(h, InParentCoordinates(t, h), t[h].x, t[h].y, Max(t[h].width, 0), Max(t[h].height, 0))
  }

  function Elements(s: seq<int>): set<int> {
    set w | w in s
  }

  lemma SubtreeSame(t: Tree, s: Tree, h: int)
    requires s.Keys == t.Keys && forall w :: w in s ==> s[w].parent == t[w].parent
    ensures Subtree(t, h) == Subtree(s, h)
  {
    forall w ensures Under(t, w, h) <==> Under(s, w, h) {
      forall n: nat ensures Ancestor(t, w, n) == Ancestor(s, w, n) {
        FewerLinks(t, s, w, n);
        FewerLinks(s, t, w, n);
      }
    }
  }

  lemma ChildListsStay(t: Tree, s: Tree)
    requires s.Keys == t.Keys && forall w :: w in s ==> s[w].parent == t[w].parent && s[w].zOrder == t[w].zOrder
    ensures forall p, list :: IsChildList(t, p, list) ==> IsChildList(s, p, list)
    ensures forall p :: SameOrder(t, s, p)
  {
    forall p, list | IsChildList(t, p, list) ensures IsChildList(s, p, list) {
      forall i | 0 <= i < |list| ensures list[i] in s {
        assert list[i] in t.Keys;
      }
    }
  }

  lemma SameOrderChain(t: Tree, u: Tree, s: Tree)
    requires forall p :: SameOrder(u, s, p)
    ensures forall p :: SameOrder(t, u, p) ==> SameOrder(t, s, p)
  {
    forall p | SameOrder(t, u, p) ensures SameOrder(t, s, p) {
      assert SameOrder(u, s, p);
    }
  }

  lemma RenumberedNext(t: Tree, order: seq<int>, k: nat, s: Tree)
    requires NoRepeats(order) && k < |order| && Renumbered(t, order[..k], s)
    ensures Renumbered(t, order[..k + 1], if order[k] in s then s[order[k] := s[order[k]].(zOrder := k)] else s)
  {
    var longer := order[..k + 1];
    assert longer == order[..k] + [order[k]];
    PositionIs(longer, k);
    forall i | 0 <= i < k ensures PositionOf(longer, order[i]) == PositionOf(order[..k], order[i]) {
      PositionIs(longer, i);
      PositionIs(order[..k], i);
    }
  }

  ghost predicate ZOrdersOnly(t: Tree, s: Tree) {
    s.Keys == t.Keys && forall w :: w in t ==> s[w] == t[w].(zOrder := s[w].zOrder)
  }

  /** Z-orders are the emulator's own business. */
  lemma RestackingIsUnseen(t: Tree, s: Tree, commands: seq<UiCommand>)
    requires HostAgrees(t, commands) && ZOrdersOnly(t, s)
    ensures HostAgrees(s, commands)
  {
    forall w ensures AgreesOn(s, commands, w) {
      assert AgreesOn(t, commands, w);
      assert SameChain(t, s, w);
      SameVisibility(t, s, w);
    }
  }

  /** Without a restack every z-order is kept; with one the window is where `insertAfter` says,
      and every other parent's children keep their z-orders. */
  ghost predicate StackedFor(t: Tree, s: Tree, noZOrder: bool, h: int, insertAfter: int) {
    && s.Keys == t.Keys
    && (forall w :: w in t && t[w].parent != (if h in t then t[h].parent else 0) ==> s[w].zOrder == t[w].zOrder)
    && (noZOrder ==> forall w :: w in s ==> s[w].zOrder == t[w].zOrder)
    && (!noZOrder && h in s && h in t ==> forall list :: IsChildList(t, t[h].parent, list) ==>
          IsChildList(s, t[h].parent, Restacked(list, h, insertAfter)))
    && (forall p :: !(h in t && p == t[h].parent) ==> SameOrder(t, s, p))
  }

  lemma PlacedAfterRestack(t: Tree, u: Tree, s: Tree, h: int, insertAfter: int,
                           x: nat, y: nat, cx: nat, cy: nat, flags: nat)
    requires h in t && ZOrdersOnly(t, u) && StackedFor(t, u, NoZOrder(flags), h, insertAfter)
    requires s == u[h := Placed(u[h], x, y, cx, cy, flags)]
    ensures ZOrdersOnly(t[h := Placed(t[h], x, y, cx, cy, flags)], s)
    ensures StackedFor(t, s, NoZOrder(flags), h, insertAfter)
  {
    ChildListsStay(u, s);
    SameOrderChain(t, u, s);
  }

  class WinEvent {
    var windows: Tree
    var mainGuest: Option<int>
    var mainRegistered: bool
    var generation: nat
    var commands: seq<UiCommand>

    constructor ()
      ensures windows == map[] && mainGuest == None && !mainRegistered && generation == 0 && commands == []
    {
      windows, mainGuest, mainRegistered, generation, commands := map[], None, false, 0, [];
    }

    method ChildrenExcept(parent: int, skip: set<int>) returns (children: seq<int>)
      ensures InZOrder(windows, children)
      ensures forall w :: w in children <==> w in windows && windows[w].parent == parent && w !in skip
    {
      children := [];
      var todo := windows.Keys;
      while true
        invariant todo <= windows.Keys
        invariant InZOrder(windows, children)
        invariant forall w :: w in children <==> w in windows && w !in todo && windows[w].parent == parent && w !in skip
        decreases todo
      {
        if w :| w in todo {
          todo := todo - {w};
          if windows[w].parent == parent && w !in skip {
            children := InsertByZ(windows, children, w);
          }
        } else {
          break;
        }
      }
    }

    method ChildWindows(h: int) returns (children: seq<int>)
      ensures IsChildList(windows, h, children)
    {
      children := ChildrenExcept(h, {});
    }

    /** Sums offsets and insets up the child chain.  It answers exactly when the chain reaches
        a window in screen coordinates; the loop bound never cuts such a chain short. */
    method WindowScreenOrigin(h: int) returns (r: Option<Point>)
      ensures r.Some? <==> exists k: nat :: RootAt(windows, h, k)
      ensures forall k: nat :: RootAt(windows, h, k) ==> r == Some(ScreenOrigin(windows, h, k))
    {
      var current, x, y := h, 0, 0;
      var step := 0;
      while step < |windows| + 1
        invariant 0 <= step <= |windows| + 1
        invariant Climbed(windows, h, step, current, Point(x, y))
      {
        if current !in windows {
          Lost(windows, h, step, current, Point(x, y));
          return None;
        }
        var atX, atY := x + windows[current].x, y + windows[current].y;
        if !InParentCoordinates(windows, current) {
          Arrived(windows, h, step, current, Point(x, y));
          return Some(Point(atX, atY));
        }
        var parent := windows[current].parent;
        if parent !in windows {
          Lost(windows, h, step, current, Point(x, y));
          return None;
        }
        Climb(windows, h, step, current, Point(x, y));
        x := atX + windows[parent].insetLeft;
        y := atY + windows[parent].insetTop;
        current := parent;
        step := step + 1;
      }
      forall k: nat ensures !RootAt(windows, h, k) {
        if RootAt(windows, h, k) {
          RootWithinBound(windows, h, k);
        }
      }
      return None;
    }

    /** True exactly when the chain reaches a window in screen coordinates and every window on
        it, both ends included, is visible. */
    method EffectiveVisibility(h: int) returns (visible: bool)
      ensures visible <==> Visible(windows, h)
    {
      var current := h;
      var step := 0;
      while step < |windows| + 1
        invariant 0 <= step <= |windows| + 1
        invariant Ancestor(windows, h, step) == Some(current)
        invariant forall i: nat :: i < step ==>
                    && Ancestor(windows, h, i).Some? && InParentCoordinates(windows, Ancestor(windows, h, i).value)
                    && windows[Ancestor(windows, h, i).value].visible
      {
        if current !in windows {
          NoRootPastMissing(windows, h, step);
          return false;
        }
        if !windows[current].visible {
          forall k: nat | RootAt(windows, h, k) ensures !AllVisible(windows, h, k) {
            assert step <= k;
          }
          return false;
        }
        if !InParentCoordinates(windows, current) {
          assert RootAt(windows, h, step) && AllVisible(windows, h, step);
          return true;
        }
        AncestorNext(windows, h, step);
        current := windows[current].parent;
        step := step + 1;
      }
      forall k: nat ensures !RootAt(windows, h, k) {
        if RootAt(windows, h, k) {
          RootWithinBound(windows, h, k);
        }
      }
      return false;
    }

    /** Terminates on every acyclic tree, from any handle. */
    method SubtreePostorder(h: int) returns (out: seq<int>)
      requires Acyclic(windows)
      ensures IsTraversal(windows, h, out, true)
      decreases |Subtree(windows, h)|, if h in windows then 0 else 1
    {
      var kids := ChildWindows(h);
      out := [];
      for k := 0 to |kids|
        invariant KidsListed(windows, kids[..k], out, true)
      {
        assert kids[k] in kids;
        SubtreeShrinks(windows, kids[k]);
        var sub := SubtreePostorder(kids[k]);
        AddKid(windows, h, kids[..k], out, kids[k], sub, true);
        assert kids[..k + 1] == kids[..k] + [kids[k]];
        out := out + sub;
      }
      assert kids[..|kids|] == kids;
      AddSelf(windows, h, kids, out, true);
      if h in windows {
        out := out + [h];
      }
    }

    /** Parents first; a handle without a window has no subtree here, whoever names it parent. */
    method SubtreePreorder(h: int) returns (out: seq<int>)
      requires Acyclic(windows)
      ensures if h in windows then IsTraversal(windows, h, out, false) else out == []
      decreases |Subtree(windows, h)|
    {
      if h !in windows {
        return [];
      }
      var kids := ChildWindows(h);
      var below := [];
      for k := 0 to |kids|
        invariant KidsListed(windows, kids[..k], below, false)
      {
        assert kids[k] in kids;
        SubtreeShrinks(windows, kids[k]);
        var sub := SubtreePreorder(kids[k]);
        AddKid(windows, h, kids[..k], below, kids[k], sub, false);
        assert kids[..k + 1] == kids[..k] + [kids[k]];
        below := below + sub;
      }
      assert kids[..|kids|] == kids;
      AddSelf(windows, h, kids, below, false);
      out := [h] + below;
    }

    // ----- telling the host

    method HostWindowOrigin(h: int) returns (r: Option<(bool, int, int)>)
      ensures r == if h in windows then Some((InParentCoordinates(windows, h), windows[h].x, windows[h].y)) else None
    {
      if h !in windows {
        return None;
      }
      if InParentCoordinates(windows, h) {
        return Some((true, windows[h].x, windows[h].y));
      }
      var origin := WindowScreenOrigin(h);
      assert RootAt(windows, h, 0);
      return Some((false, origin.value.x, origin.value.y));
    }

    method SyncHostGeometry(h: int)
      modifies this`commands
      ensures commands == old(commands) + if h in windows then [MoveOf(windows, h)] else []
    {
      if h !in windows {
        return;
      }
      var origin := HostWindowOrigin(h);
      var (inParent, x, y) := origin.value;
      var width, height := Max(windows[h].width, 0), Max(windows[h].height, 0);
      commands := commands + [UiCommand.MoveWindow(h, inParent, x, y, width, height)];
    }

    method SyncSubtreeVisibility(h: int) returns (ghost order: seq<int>)
      requires Acyclic(windows)
      modifies this`commands
      ensures if h in windows then IsTraversal(windows, h, order, false) else order == []
      ensures commands == old(commands) + Shows(windows, order)
    {
      var handles := SubtreePreorder(h);
      for k := 0 to |handles|
        invariant commands == old(commands) + Shows(windows, handles[..k])
      {
        var shown := EffectiveVisibility(handles[k]);
        assert handles[..k + 1][..k] == handles[..k];
        commands := commands + [UiCommand.ShowWindow(handles[k], shown)];
      }
      assert handles[..|handles|] == handles;
      order := handles;
    }

    // ----- operations

    method BumpGeneration()
      modifies this`generation
      ensures generation == (old(generation) + 1) % U64_LIMIT
    {
      generation := (generation + 1) % U64_LIMIT;
    }

    /** The first top-level window ever registered becomes the main one.  A handle nothing
        refers to yet keeps the tree acyclic and the host in agreement. */
    method CreateWindow(h: int, state: Window)
      modifies this
      ensures windows == old(windows)[h := state] && commands == old(commands)
      ensures generation == (old(generation) + 1) % U64_LIMIT
      ensures var main := !old(mainRegistered) && state.parent == 0 && !state.child;
        && mainRegistered == (old(mainRegistered) || main)
        && mainGuest == if main then Some(h) else old(mainGuest)
      ensures old(Acyclic(windows)) && Unused(old(windows), h) && state.parent != h ==> Acyclic(windows)
      ensures old(HostAgrees(windows, commands)) && Unused(old(windows), h) ==> HostAgrees(windows, commands)
    {
      if !mainRegistered && state.parent == 0 && !state.child {
        mainGuest, mainRegistered := Some(h), true;
      }
      if Acyclic(windows) && Unused(windows, h) && state.parent != h {
        NewWindowKeepsAcyclic(windows, h, state);
      }
      if HostAgrees(windows, commands) && Unused(windows, h) {
        NewWindowKeepsAgreement(windows, h, state, commands);
      }
      windows := windows[h := state];
      BumpGeneration();
    }

    method RealizeWindow(h: int)
      modifies this`commands
      ensures h !in windows ==> commands == old(commands)
      ensures h in windows ==> Hosted(commands, h).Some? && forall w ::
                w != h ==> Hosted(commands, w) == Hosted(old(commands), w)
      ensures old(HostAgrees(windows, commands)) ==> HostAgrees(windows, commands)
    {
      if h !in windows {
        return;
      }
      var origin := HostWindowOrigin(h);
      var (inParent, x, y) := origin.value;
      var shown := EffectiveVisibility(h);
      var create := UiCommand.CreateWindow(h,
          HostWindow(shown, inParent, x, y, Max(windows[h].width, 0), Max(windows[h].height, 0)));
      commands := commands + [create];
      forall w
        ensures Hosted(commands, w) == if w == h then Some(create.shown) else Hosted(old(commands), w)
        ensures old(AgreesOn(windows, commands, w)) ==> AgreesOn(windows, commands, w)
      {
        HostedOne(old(commands), create, w);
      }
    }

    /** Shows or hides one window; the host hears of it and of every window below it, parents
        first, so it still agrees on all of them. */
    method ShowWindow(h: int, visible: bool)
      requires Acyclic(windows)
      modifies this`windows, this`generation, this`commands
      ensures windows == if h in old(windows) then old(windows)[h := old(windows)[h].(visible := visible)]
                else old(windows)
      ensures generation == if h in old(windows) then (old(generation) + 1) % U64_LIMIT else old(generation)
      ensures Acyclic(windows) && SameHosts(old(commands), commands)
      ensures old(HostAgrees(windows, commands)) ==> HostAgrees(windows, commands)
    {
      ghost var before := windows;
      if h in windows {
        windows := windows[h := windows[h].(visible := visible)];
        BumpGeneration();
        RemovalKeepsAcyclic(before, windows);
      }
      ghost var order := SyncSubtreeVisibility(h);
      forall w ensures Hosted(commands, w).Some? == Hosted(old(commands), w).Some? {
        HostedAfterShows(old(commands), windows, order, w);
      }
      if h in windows {
        SubtreeSame(before, windows, h);
        if old(HostAgrees(windows, commands)) {
          ShowsRestoreAgreement(before, windows, h, old(commands), order);
        }
      } else {
        assert commands == old(commands);
      }
    }

    method MoveWindow(h: int, x: int, y: int, width: nat, height: nat)
      requires Acyclic(windows)
      modifies this`windows, this`generation, this`commands
      ensures windows == if h in old(windows)
                         then old(windows)[h := old(windows)[h].(x := x, y := y, width := ToI32(width),
                             height := ToI32(height))]
                         else old(windows)
      ensures generation == if h in old(windows) then (old(generation) + 1) % U64_LIMIT else old(generation)
      ensures Acyclic(windows)
      ensures old(HostAgrees(windows, commands)) ==> HostAgrees(windows, commands) && SameHosts(old(commands), commands)
    {
      ghost var before := windows;
      if h in windows {
        windows := windows[h := windows[h].(x := x, y := y, width := ToI32(width), height := ToI32(height))];
        BumpGeneration();
        RemovalKeepsAcyclic(before, windows);
      }
      SyncHostGeometry(h);
      if h in windows && old(HostAgrees(windows, commands)) {
        assert old(commands) + Shows(windows, []) == old(commands);
        PlacingRestoresAgreement(before, windows, h, old(commands), [], MoveOf(windows, h));
      }
      if h !in windows {
        assert commands == old(commands);
      }
    }

    /** Gives the listed windows their places as z-orders; handles without a window are skipped. */
    method Renumber(order: seq<int>)
      requires NoRepeats(order)
      modifies this`windows
      ensures Renumbered(old(windows), order, windows)
    {
      for k := 0 to |order|
        invariant Renumbered(old(windows), order[..k], windows)
      {
        RenumberedNext(old(windows), order, k, windows);
        if order[k] in windows {
          windows := windows[order[k] := windows[order[k]].(zOrder := k)];
        }
      }
      assert order[..|order|] == order;
    }

    /** Puts the window right where `insertAfter` says and keeps the order of all other siblings
        and of every other parent's children; a handle without a window only renumbers the top
        level. */
    method Restack(h: int, insertAfter: int)
      modifies this`windows
      ensures ZOrdersOnly(old(windows), windows)
      ensures h in windows ==> forall list :: IsChildList(old(windows), windows[h].parent, list) ==>
                IsChildList(windows, windows[h].parent, Restacked(list, h, insertAfter))
      ensures forall p :: !(h in windows && p == windows[h].parent) ==> SameOrder(old(windows), windows, p)
      ensures forall w :: w in windows && windows[w].parent != (if h in windows then windows[h].parent else 0) ==>
                windows[w] == old(windows)[w]
    {
      var parent := if h in windows then windows[h].parent else 0;
      var siblings := ChildrenExcept(parent, {h});
      var at := InsertIndex(siblings, insertAfter);
      InsertedNoRepeats(siblings, at, h);
      Renumber(InsertAt(siblings, at, h));
      RestackedChildren(old(windows), parent, h, siblings, insertAfter, windows);
    }

    /** Place, size and a pending show of a window that exists, reported to the host. */
    method Place(h: int, x: nat, y: nat, cx: nat, cy: nat, flags: nat)
      requires Acyclic(windows) && h in windows
      modifies this`windows, this`generation, this`commands
      ensures windows == old(windows)[h := Placed(old(windows)[h], x, y, cx, cy, flags)] && Acyclic(windows)
      ensures PlacedBy(old(windows)[h], windows[h], x, y, cx, cy, flags)
      ensures generation == (old(generation) + 1) % U64_LIMIT
      ensures old(HostAgrees(windows, commands)) ==> HostAgrees(windows, commands) && SameHosts(old(commands), commands)
    {
      ghost var before := windows;
      var placed := Placed(windows[h], x, y, cx, cy, flags);
      var changed := placed.visible && !windows[h].visible;
      windows := windows[h := placed];
      RemovalKeepsAcyclic(before, windows);
      BumpGeneration();
      ghost var order := [];
      if changed {
        order := SyncSubtreeVisibility(h);
        SubtreeSame(before, windows, h);
      }
      assert commands == old(commands) + Shows(windows, order);
      SyncHostGeometry(h);
      if old(HostAgrees(windows, commands)) {
        PlacingRestoresAgreement(before, windows, h, old(commands), order, MoveOf(windows, h));
      }
      PlacedFields(before[h], x, y, cx, cy, flags);
    }

    /** The part of SetWindowPos about the stack. */
    method RestackUnless(noZOrder: bool, h: int, insertAfter: int)
      requires Acyclic(windows)
      modifies this`windows
      ensures Acyclic(windows) && ZOrdersOnly(old(windows), windows)
      ensures StackedFor(old(windows), windows, noZOrder, h, insertAfter)
      ensures old(HostAgrees(windows, commands)) ==> HostAgrees(windows, commands)
    {
      if !noZOrder {
        Restack(h, insertAfter);
      } else {
        ChildListsStay(windows, windows);
      }
      RemovalKeepsAcyclic(old(windows), windows);
      if old(HostAgrees(windows, commands)) {
        RestackingIsUnseen(old(windows), windows, commands);
      }
    }

    /** Restacks, then places; the host agrees afterwards if it did before. */
    method SetWindowPos(h: int, insertAfter: int, x: nat, y: nat, cx: nat, cy: nat, flags: nat)
      requires Acyclic(windows)
      modifies this`windows, this`generation, this`commands
      ensures Acyclic(windows)
      ensures ZOrdersOnly(if h in old(windows) then old(windows)[h := Placed(old(windows)[h], x, y, cx, cy, flags)]
                else old(windows), windows)
      ensures h in old(windows) && flags / 2 % 2 == 1 ==>
                windows[h].x == old(windows)[h].x && windows[h].y == old(windows)[h].y
      ensures h in old(windows) && flags / 2 % 2 == 0 ==> SignedOf(windows[h].x, x) && SignedOf(windows[h].y, y)
      ensures h in old(windows) && flags % 2 == 1 ==>
                windows[h].width == old(windows)[h].width && windows[h].height == old(windows)[h].height
      ensures h in old(windows) && flags % 2 == 0 ==>
                SignedOf(windows[h].width, cx) && SignedOf(windows[h].height, cy)
      ensures h in old(windows) ==> (windows[h].visible <==> old(windows)[h].visible || flags / 64 % 2 == 1)
      ensures h in old(windows) ==> SameStyle(old(windows)[h], windows[h])
      ensures StackedFor(old(windows), windows, flags / 4 % 2 == 1, h, insertAfter)
      ensures generation == if h in windows then (old(generation) + 1) % U64_LIMIT else old(generation)
      ensures old(HostAgrees(windows, commands)) ==> HostAgrees(windows, commands) && SameHosts(old(commands), commands)
    {
      RestackUnless(NoZOrder(flags), h, insertAfter);
      if h !in windows {
        return;
      }
      ghost var restacked := windows;
      Place(h, x, y, cx, cy, flags);
      PlacedAfterRestack(old(windows), restacked, windows, h, insertAfter, x, y, cx, cy, flags);
    }

    method RemoveAll(handles: seq<int>)
      modifies this`windows
      ensures windows == old(windows) - Elements(handles)
    {
      for k := 0 to |handles|
        invariant windows == old(windows) - Elements(handles[..k])
      {
        windows := windows - {handles[k]};
        assert Elements(handles[..k + 1]) == Elements(handles[..k]) + {handles[k]};
      }
      assert handles[..|handles|] == handles;
    }

    method ReportDestroyed(handles: seq<int>)
      modifies this`commands
      ensures commands == old(commands) + Destroys(handles)
    {
      for k := 0 to |handles|
        invariant commands == old(commands) + Destroys(handles[..k])
      {
        assert handles[..k + 1][..k] == handles[..k];
        commands := commands + [UiCommand.DestroyWindow(handles[k])];
      }
      assert handles[..|handles|] == handles;
    }

    /** Removes exactly the subtree and reports it children first; no window keeps a removed
        parent, and the main window is forgotten exactly when it was part of the subtree. */
    method DestroyWindow(h: int)
      requires Acyclic(windows)
      modifies this
      ensures windows == old(windows) - Subtree(old(windows), h)
      ensures forall w :: w in windows ==> windows[w].parent !in Subtree(old(windows), h)
      ensures mainGuest == if old(mainGuest).Some? && old(mainGuest).value in Subtree(old(windows), h) then None
                else old(mainGuest)
      ensures Acyclic(windows)
      ensures generation == (old(generation) + 1) % U64_LIMIT
      ensures exists order :: IsTraversal(old(windows), h, order, true) && commands == old(commands) + Destroys(order)
      ensures old(HostAgrees(windows, commands)) ==> HostAgrees(windows, commands)
    {
      var subtree := SubtreePostorder(h);
      if mainGuest.Some? && mainGuest.value in subtree {
        mainGuest := None;
      }
      RemoveAll(subtree);
      assert Elements(subtree) == Subtree(old(windows), h);
      BumpGeneration();
      ReportDestroyed(subtree);
      if old(HostAgrees(windows, commands)) {
        DestroysKeepAgreement(old(windows), h, old(commands), subtree);
      }
      RemovalKeepsAcyclic(old(windows), windows);
      forall w | w in windows ensures windows[w].parent !in Subtree(old(windows), h) {
        var p := windows[w].parent;
        if p in Subtree(old(windows), h) {
          ParentStaysUnder(old(windows), w, h);
        }
      }
    }
  }
}
