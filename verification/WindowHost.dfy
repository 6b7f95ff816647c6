/** What the host has been told about the guest's windows, and when it agrees with them. */
module WindowHost {
  import opened Common
  import opened WindowTree

  /** A window as the host shows it: position in its parent's client area or on the screen. */
  datatype HostWindow = HostWindow(visible: bool, inParent: bool, x: int, y: int, width: nat, height: nat)

  datatype UiCommand =
    | CreateWindow(hwnd: int, shown: HostWindow)
    | DestroyWindow(hwnd: int)
    | ShowWindow(hwnd: int, visible: bool)
    | MoveWindow(hwnd: int, inParent: bool, x: int, y: int, width: nat, height: nat)

  /** The host's window after all commands; showing or moving one it does not have does nothing. */
  function Hosted(commands: seq<UiCommand>, h: int): Option<HostWindow> {
    if commands == [] then None
    else
      var before := Hosted(commands[..|commands| - 1], h);
      var last := commands[|commands| - 1];
      if last.hwnd != h then before
      else
        match last
        case CreateWindow(_, shown) => Some(shown)
        case DestroyWindow(_) => None
        case ShowWindow(_, visible) =>
          if before.None? then None else Some(before.value.(visible := visible))
        case MoveWindow(_, inParent, x, y, width, height) =>
          if before.None? then None else Some(HostWindow(before.value.visible, inParent, x, y, width, height))
  }

  ghost predicate Visible(t: Tree, h: int) {
    exists k: nat :: RootAt(t, h, k) && AllVisible(t, h, k)
  }

  /** A window that is not a true child lies on the screen at its own offset, also one that has
      an owner; a true child lies inside the frame of its parent. */
  lemma OriginRule(t: Tree, h: int, k: nat)
    requires h in t && RootAt(t, h, k)
    ensures t[h].parent == 0 || !t[h].child ==> ScreenOrigin(t, h, k) == Point(t[h].x, t[h].y)
    ensures t[h].parent != 0 && t[h].child ==>
              && k > 0 && t[h].parent in t && RootAt(t, t[h].parent, k - 1)
              && var (p, at) := (t[t[h].parent], ScreenOrigin(t, t[h].parent, k - 1));
                 ScreenOrigin(t, h, k) == Point(at.x + p.insetLeft + t[h].x, at.y + p.insetTop + t[h].y)
  {
    assert Ancestor(t, h, 0) == Some(h);
    if k > 0 {
      RootBelow(t, h, k);
    }
  }

  /** It is seen exactly when it is visible and, for a true child, its parent is seen. */
  lemma VisibleRule(t: Tree, h: int)
    ensures h !in t ==> !Visible(t, h)
    ensures h in t && (t[h].parent == 0 || !t[h].child) ==> (Visible(t, h) <==> t[h].visible)
    ensures h in t && t[h].parent != 0 && t[h].child ==> (Visible(t, h) <==> t[h].visible && Visible(t, t[h].parent))
  {
    assert Ancestor(t, h, 0) == Some(h);
    if h in t && InParentCoordinates(t, h) {
      var p := t[h].parent;
      if Visible(t, h) {
        var k: nat :| RootAt(t, h, k) && AllVisible(t, h, k);
        RootBelow(t, h, k);
        forall i: nat | i <= k - 1 ensures t[Ancestor(t, p, i).value].visible {
          assert Ancestor(t, h, i + 1) == Ancestor(t, p, i);
        }
        assert AllVisible(t, p, k - 1);
      }
      if t[h].visible && Visible(t, p) {
        var k: nat :| RootAt(t, p, k) && AllVisible(t, p, k);
        forall i: nat | 0 < i <= k + 1 ensures Ancestor(t, h, i) == Ancestor(t, p, i - 1) {
        }
        assert RootAt(t, h, k + 1) && AllVisible(t, h, k + 1);
      }
    } else if h in t {
      assert RootAt(t, h, 0);
      assert t[h].visible ==> AllVisible(t, h, 0);
      assert Visible(t, h) ==> t[h].visible;
    } else {
      NoRootPastMissing(t, h, 0);
    }
  }

  ghost function HostOf(t: Tree, h: int): HostWindow
    requires h in t
  {
    HostWindow(Visible(t, h), InParentCoordinates(t, h), t[h].x, t[h].y, Max(t[h].width, 0), Max(t[h].height, 0))
  }

  ghost predicate AgreesOn(t: Tree, commands: seq<UiCommand>, h: int) {
    Hosted(commands, h).Some? ==> h in t && Hosted(commands, h).value == HostOf(t, h)
  }

  /** Every host window belongs to a guest window, lies where the guest put it, and is shown
      exactly when the guest window and the whole chain above it are visible. */
  ghost predicate HostAgrees(t: Tree, commands: seq<UiCommand>) {
    forall h :: AgreesOn(t, commands, h)
  }

  // ----- when a change leaves a window's visibility alone

  predicate SameAt(t: Tree, s: Tree, a: int) {
    && (a in t <==> a in s)
    && (a in t ==> s[a].parent == t[a].parent && s[a].child == t[a].child && s[a].visible == t[a].visible)
  }

  ghost predicate SameChain(t: Tree, s: Tree, w: int) {
    forall i: nat :: Ancestor(t, w, i).Some? ==> SameAt(t, s, Ancestor(t, w, i).value)
  }

  lemma {:induction false} ChainsEqual(t: Tree, s: Tree, w: int, i: nat)
    requires SameChain(t, s, w)
    ensures Ancestor(s, w, i) == Ancestor(t, w, i)
  {
    if i > 0 {
      ChainsEqual(t, s, w, i - 1);
      AncestorNext(t, w, i - 1);
      AncestorNext(s, w, i - 1);
    }
  }

  lemma SameRoot(t: Tree, s: Tree, w: int, k: nat)
    requires SameChain(t, s, w) && RootAt(t, w, k)
    ensures RootAt(s, w, k) && (AllVisible(t, w, k) ==> AllVisible(s, w, k))
  {
    forall i: nat ensures Ancestor(s, w, i) == Ancestor(t, w, i) {
      ChainsEqual(t, s, w, i);
    }
  }

  lemma SameVisibility(t: Tree, s: Tree, w: int)
    requires SameChain(t, s, w)
    ensures Visible(t, w) == Visible(s, w)
  {
    forall i: nat ensures Ancestor(s, w, i) == Ancestor(t, w, i) {
      ChainsEqual(t, s, w, i);
    }
    assert SameChain(s, t, w);
    forall k: nat | RootAt(t, w, k) && AllVisible(t, w, k) ensures RootAt(s, w, k) && AllVisible(s, w, k) {
      SameRoot(t, s, w, k);
    }
    forall k: nat | RootAt(s, w, k) && AllVisible(s, w, k) ensures RootAt(t, w, k) && AllVisible(t, w, k) {
      SameRoot(s, t, w, k);
    }
  }

  /** A change at `h` only is felt only below `h`. */
  lemma VisibleAboveUnchanged(t: Tree, s: Tree, h: int, w: int)
    requires !Under(t, w, h) && forall a :: a != h ==> SameAt(t, s, a)
    ensures Visible(t, w) == Visible(s, w)
  {
    assert SameChain(t, s, w);
    SameVisibility(t, s, w);
  }

  // ----- batches of commands

  ghost function Shows(t: Tree, order: seq<int>): seq<UiCommand> {
    if order == [] then []
    else Shows(t, order[..|order| - 1]) + [UiCommand.ShowWindow(order[|order| - 1], Visible(t, order[|order| - 1]))]
  }

  function Destroys(order: seq<int>): seq<UiCommand> {
    if order == [] then [] else Destroys(order[..|order| - 1]) + [UiCommand.DestroyWindow(order[|order| - 1])]
  }

  lemma HostedNext(commands: seq<UiCommand>, more: seq<UiCommand>, last: UiCommand, h: int)
    ensures Hosted(commands + (more + [last]), h) == Hosted((commands + more) + [last], h)
    ensures last.hwnd != h ==> Hosted(commands + (more + [last]), h) == Hosted(commands + more, h)
    ensures last.DestroyWindow? && last.hwnd == h ==> Hosted(commands + (more + [last]), h).None?
    ensures last.ShowWindow? && last.hwnd == h ==>
              Hosted(commands + (more + [last]), h) ==
              match Hosted(commands + more, h) case None => None case Some(w) => Some(w.(visible := last.visible))
  {
    assert commands + (more + [last]) == (commands + more) + [last];
    assert ((commands + more) + [last])[..|commands + more|] == commands + more;
  }

  lemma HostedOne(commands: seq<UiCommand>, last: UiCommand, h: int)
    ensures last.hwnd != h ==> Hosted(commands + [last], h) == Hosted(commands, h)
    ensures last.CreateWindow? && last.hwnd == h ==> Hosted(commands + [last], h) == Some(last.shown)
    ensures last.MoveWindow? && last.hwnd == h ==>
              Hosted(commands + [last], h) ==
              match Hosted(commands, h) case None => None
              case Some(w) => Some(HostWindow(w.visible, last.inParent, last.x, last.y, last.width, last.height))
  {
    assert (commands + [last])[..|commands|] == commands;
  }

  lemma {:induction false} HostedAfterShows(commands: seq<UiCommand>, t: Tree, order: seq<int>, h: int)
    ensures Hosted(commands + Shows(t, order), h) ==
            if h in order && Hosted(commands, h).Some? then Some(Hosted(commands, h).value.(visible := Visible(t, h)))
            else Hosted(commands, h)
    decreases |order|
  {
    if order == [] {
      assert commands + Shows(t, order) == commands;
    } else {
      var n := |order| - 1;
      HostedAfterShows(commands, t, order[..n], h);
      HostedNext(commands, Shows(t, order[..n]), UiCommand.ShowWindow(order[n], Visible(t, order[n])), h);
      assert order == order[..n] + [order[n]];
    }
  }

  lemma {:induction false} HostedAfterDestroys(commands: seq<UiCommand>, order: seq<int>, h: int)
    ensures Hosted(commands + Destroys(order), h) == if h in order then None else Hosted(commands, h)
    decreases |order|
  {
    if order == [] {
      assert commands + Destroys(order) == commands;
    } else {
      var n := |order| - 1;
      HostedAfterDestroys(commands, order[..n], h);
      HostedNext(commands, Destroys(order[..n]), UiCommand.DestroyWindow(order[n]), h);
      assert order == order[..n] + [order[n]];
    }
  }

  // ----- agreement after each operation

  predicate SamePlace(a: Window, b: Window) {
    a.x == b.x && a.y == b.y && a.width == b.width && a.height == b.height
  }

  ghost predicate SameHosts(before: seq<UiCommand>, after: seq<UiCommand>) {
    forall w :: Hosted(after, w).Some? == Hosted(before, w).Some?
  }

  /** Telling the host about the subtree is enough after a change at its root. */
  lemma ShowsRestoreAgreement(t: Tree, s: Tree, h: int, commands: seq<UiCommand>, order: seq<int>)
    requires HostAgrees(t, commands) && h in t && s.Keys == t.Keys
    requires forall a :: a != h ==> SameAt(t, s, a)
    requires s[h].parent == t[h].parent && s[h].child == t[h].child
    requires forall w :: w in t ==> SamePlace(t[w], s[w])
    requires forall w :: w in order <==> w in Subtree(t, h)
    ensures HostAgrees(s, commands + Shows(s, order))
    ensures SameHosts(commands, commands + Shows(s, order))
  {
    forall w ensures Hosted(commands + Shows(s, order), w).Some? == Hosted(commands, w).Some? {
      HostedAfterShows(commands, s, order, w);
    }
    forall w ensures AgreesOn(s, commands + Shows(s, order), w) {
      HostedAfterShows(commands, s, order, w);
      assert AgreesOn(t, commands, w) && (w != h ==> SameAt(t, s, w));
      if w in t && w !in order {
        VisibleAboveUnchanged(t, s, h, w);
      }
    }
  }

  /** Destroying a subtree changes nothing for the windows that stay. */
  lemma DestroysKeepAgreement(t: Tree, h: int, commands: seq<UiCommand>, order: seq<int>)
    requires HostAgrees(t, commands) && forall w :: w in order <==> w in Subtree(t, h)
    ensures HostAgrees(t - Subtree(t, h), commands + Destroys(order))
  {
    var s := t - Subtree(t, h);
    forall w ensures AgreesOn(s, commands + Destroys(order), w) {
      HostedAfterDestroys(commands, order, w);
      assert AgreesOn(t, commands, w);
      if w in t && w !in order {
        OutsideKeepsChain(t, h, w);
        SameVisibility(t, s, w);
      }
    }
  }

  lemma OutsideKeepsChain(t: Tree, h: int, w: int)
    requires w in t && !Under(t, w, h)
    ensures SameChain(t, t - Subtree(t, h), w)
  {
    forall i: nat | Ancestor(t, w, i).Some? ensures SameAt(t, t - Subtree(t, h), Ancestor(t, w, i).value) {
      var a := Ancestor(t, w, i).value;
      if Under(t, a, h) {
        var n: nat :| Ancestor(t, a, n) == Some(h);
        AncestorSum(t, w, i, n);
      }
    }
  }

  /** No window hangs below a handle that has not been given out yet. */
  predicate Unused(t: Tree, h: int) {
    h !in t && forall w :: w in t ==> t[w].parent != h
  }

  lemma NotUnderUnused(t: Tree, h: int, w: int)
    requires Unused(t, h) && w != h
    ensures !Under(t, w, h)
  {
    if Under(t, w, h) {
      UnderChild(t, w, h);
    }
  }

  lemma NewWindowKeepsAgreement(t: Tree, h: int, state: Window, commands: seq<UiCommand>)
    requires HostAgrees(t, commands) && Unused(t, h)
    ensures HostAgrees(t[h := state], commands)
  {
    var s := t[h := state];
    forall w ensures AgreesOn(s, commands, w) {
      assert AgreesOn(t, commands, w);
      if w in t {
        NotUnderUnused(t, h, w);
        VisibleAboveUnchanged(t, s, h, w);
      }
    }
  }

  lemma NewWindowKeepsAcyclic(t: Tree, h: int, state: Window)
    requires Acyclic(t) && Unused(t, h) && state.parent != h
    ensures Acyclic(t[h := state])
  {
    var s := t[h := state];
    forall g: int, n: nat | n >= 1 ensures Ancestor(s, g, n) != Some(g) {
      if g == h {
        assert Ancestor(s, h, n) == Ancestor(s, state.parent, n - 1);
        NewWindowOnTop(t, h, state, state.parent, n - 1);
      } else {
        NewWindowOnTop(t, h, state, g, n);
      }
    }
  }

  lemma NewWindowOnTop(t: Tree, h: int, state: Window, w: int, n: nat)
    requires Unused(t, h) && w != h
    ensures Ancestor(t[h := state], w, n) == Ancestor(t, w, n) && Ancestor(t, w, n) != Some(h)
  {
    NotUnderUnused(t, h, w);
    assert SameChain(t, t[h := state], w) by {
      forall i: nat | Ancestor(t, w, i).Some? ensures Ancestor(t, w, i).value != h {
      }
    }
    ChainsEqual(t, t[h := state], w, n);
  }

  /** Placing a window: the subtree's visibility if it changed, then the window's own place. */
  lemma PlacingRestoresAgreement(t: Tree, s: Tree, h: int, commands: seq<UiCommand>, order: seq<int>, move: UiCommand)
    requires HostAgrees(t, commands) && h in t && s.Keys == t.Keys
    requires forall a :: a != h ==> SameAt(t, s, a)
    requires s[h].parent == t[h].parent && s[h].child == t[h].child
    requires forall w :: w in t && w != h ==> SamePlace(t[w], s[w])
    requires if s[h].visible == t[h].visible then order == [] else forall w :: w in order <==> w in Subtree(t, h)
    requires move == MoveWindow(h, InParentCoordinates(s, h), s[h].x, s[h].y, Max(s[h].width, 0), Max(s[h].height, 0))
    ensures HostAgrees(s, commands + Shows(s, order) + [move])
    ensures SameHosts(commands, commands + Shows(s, order) + [move])
  {
    forall w ensures AgreesOn(s, commands + Shows(s, order) + [move], w) {
      HostedAfterShows(commands, s, order, w);
      HostedOne(commands + Shows(s, order), move, w);
      assert AgreesOn(t, commands, w) && (w != h ==> SameAt(t, s, w));
      if w in t && w !in order {
        if order == [] {
          assert SameChain(t, s, w);
          SameVisibility(t, s, w);
        } else {
          VisibleAboveUnchanged(t, s, h, w);
        }
      }
    }
    forall w ensures Hosted(commands + Shows(s, order) + [move], w).Some? == Hosted(commands, w).Some? {
      HostedAfterShows(commands, s, order, w);
      HostedOne(commands + Shows(s, order), move, w);
    }
  }
}
