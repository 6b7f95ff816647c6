/** The clip a window paints through: its client rectangle minus the windows in front of it. */
module ClientClip {
  import opened Common
  import opened Region
  import opened RegionOps
  import opened WindowTree

  /** In window coordinates; degenerate when the frame leaves nothing. */
  function ClientRect(w: Window): Rect {
    Rect(w.insetLeft, w.insetTop,
         Max(Max(w.width, 0) - w.insetRight, w.insetLeft), Max(Max(w.height, 0) - w.insetBottom, w.insetTop))
  }

  /** A child's outer rectangle in the coordinates of its parent `p`. */
  function ChildRect(p: Window, w: Window): Rect {
    var left, top := p.insetLeft + w.x, p.insetTop + w.y;
    Rect(left, top, left + Max(w.width, 0), top + Max(w.height, 0))
  }

  /** A sibling's outer rectangle in the coordinates of `s`. */
  function SiblingRect(s: Window, w: Window): Rect {
    Rect(w.x - s.x, w.y - s.y, w.x - s.x + Max(w.width, 0), w.y - s.y + Max(w.height, 0))
  }

  /** The points of the window inside its frame: at least the left and top inset in, and right
      and bottom insets away from the far edges. */
  lemma ClientPoints(w: Window, x: int, y: int)
    ensures InRect(ClientRect(w), x, y) <==>
            && w.insetLeft <= x && x + w.insetRight < Max(w.width, 0)
            && w.insetTop <= y && y + w.insetBottom < Max(w.height, 0)
  {
  }

  predicate CoversAsChild(t: Tree, h: int, w: int)
    requires h in t && w in t
  {
    t[h].clipChildren && w != h && t[w].parent == h && t[w].visible && t[w].child
  }

  predicate CoversAsSibling(t: Tree, h: int, w: int)
    requires h in t && w in t
  {
    && InParentCoordinates(t, h) && t[h].clipSiblings
    && w != h && t[w].parent == t[h].parent && t[w].visible && t[w].child && t[w].zOrder > t[h].zOrder
  }

  /** Of the children of a window those in front of it are its visible true children, if its
      style clips them. */
  lemma ChildCovers(t: Tree, h: int, kids: seq<int>, w: int)
    requires h in t && w in t && IsChildList(t, h, kids)
    ensures CoversAsChild(t, h, w) <==> w in kids && w != h && t[h].clipChildren && t[w].visible && t[w].child
  {
  }

  /** Of the siblings only visible true children later in the z-ordered list cover a child that
      clips its siblings; of those, all that do not share its z-order. */
  lemma SiblingCovers(t: Tree, siblings: seq<int>, i: nat, j: nat)
    requires i < |siblings| && j < |siblings| && siblings[i] in t && IsChildList(t, t[siblings[i]].parent, siblings)
    ensures siblings[j] in t
    ensures var (h, w) := (siblings[i], siblings[j]);
      CoversAsSibling(t, h, w) <==>
      && i < j && t[h].zOrder != t[w].zOrder
      && t[h].parent != 0 && t[h].child && t[h].clipSiblings && t[w].visible && t[w].child
  {
    var (h, w) := (siblings[i], siblings[j]);
    assert w in siblings;
    if i < j {
      assert Before(t, h, w);
    } else if j < i {
      assert Before(t, w, h);
    }
  }

  /** A window that is no sibling does not cover as one. */
  lemma StrangerCoversNot(t: Tree, h: int, w: int)
    requires h in t && w in t && t[w].parent != t[h].parent
    ensures !CoversAsSibling(t, h, w)
  {
  }

  /** Window `w` hides the point of `h`. */
  predicate Hides(t: Tree, h: int, w: int, x: int, y: int)
    requires h in t
  {
    && w in t
    && ((CoversAsChild(t, h, w) && InRect(ChildRect(t[h], t[w]), x, y))
        || (CoversAsSibling(t, h, w) && InRect(SiblingRect(t[h], t[w]), x, y)))
  }

  ghost predicate Hidden(t: Tree, h: int, x: int, y: int)
    requires h in t
  {
    exists w :: Hides(t, h, w, x, y)
  }

  /** Hidden by a window that is not among `rest`. */
  ghost predicate HiddenSoFar(t: Tree, h: int, rest: set<int>, x: int, y: int)
    requires h in t
  {
    exists w :: w !in rest && Hides(t, h, w, x, y)
  }

  lemma AppendRect(rects: seq<Rect>, r: Rect, x: int, y: int)
    ensures Covers(rects + ToSeq(NormalizeRect(r)), x, y) <==> Covers(rects, x, y) || InRect(r, x, y)
  {
    CoversConcat(rects, ToSeq(NormalizeRect(r)), x, y);
    OptionArea(r, x, y);
  }

  /** The rectangles in front of a window, in whatever order the map yields them. */
  method Covering(t: Tree, h: int) returns (rects: seq<Rect>)
    requires h in t
    ensures forall x, y :: Covers(rects, x, y) <==> Hidden(t, h, x, y)
  {
    rects := [];
    var todo := t.Keys;
    while true
      invariant todo <= t.Keys
      invariant forall x, y :: Covers(rects, x, y) <==> HiddenSoFar(t, h, todo, x, y)
      decreases todo
    {
      if w :| w in todo {
        ghost var before := rects;
        todo := todo - {w};
        if CoversAsChild(t, h, w) {
          rects := rects + ToSeq(NormalizeRect(ChildRect(t[h], t[w])));
        }
        if CoversAsSibling(t, h, w) {
          rects := rects + ToSeq(NormalizeRect(SiblingRect(t[h], t[w])));
        }
        forall x, y ensures Covers(rects, x, y) <==> HiddenSoFar(t, h, todo, x, y) {
          AppendRect(before, ChildRect(t[h], t[w]), x, y);
          AppendRect(before, SiblingRect(t[h], t[w]), x, y);
          AppendRect(before + ToSeq(NormalizeRect(ChildRect(t[h], t[w]))), SiblingRect(t[h], t[w]), x, y);
          HiddenByOneMore(t, h, todo, w, x, y);
        }
      } else {
        forall x, y ensures HiddenSoFar(t, h, todo, x, y) <==> Hidden(t, h, x, y) {
          if Hidden(t, h, x, y) {
            var w :| Hides(t, h, w, x, y);
            assert w !in todo;
          }
        }
        break;
      }
    }
  }

  lemma HiddenByOneMore(t: Tree, h: int, rest: set<int>, w: int, x: int, y: int)
    requires h in t && w !in rest
    ensures HiddenSoFar(t, h, rest, x, y) <==> HiddenSoFar(t, h, rest + {w}, x, y) || Hides(t, h, w, x, y)
  {
  }

  /** None for a window that is missing or has no client area; otherwise exactly the client
      points that no window in front hides, none listed twice. */
  method BuildClientClipRects(t: Tree, h: int) returns (r: Option<seq<Rect>>)
    ensures r.None? <==> h !in t || !Nondegenerate(ClientRect(t[h]))
    ensures r.Some? ==>
              && PairwiseDisjoint(r.value)
              && forall x, y :: Covers(r.value, x, y) <==> InRect(ClientRect(t[h]), x, y) && !Hidden(t, h, x, y)
  {
    if h !in t {
      return None;
    }
    var base := ClientRect(t[h]);
    if NormalizeRect(base).None? {
      return None;
    }
    var subtractors := Covering(t, h);
    var rects := SubtractRegionRects([base], subtractors);
    forall x, y ensures Covers([base], x, y) <==> InRect(base, x, y) {
      CoversOne(base, x, y);
    }
    r := Some(rects);
  }

  /** The region a paint DC starts with, under a fresh handle, or 0. */
  method CreateClientClipRegion(table: GdiTable, t: Tree, h: int) returns (region: int)
    requires table.Valid()
    modifies table
    ensures table.Valid()
    ensures h !in t || !Nondegenerate(ClientRect(t[h])) ==> region == 0 && table.objects == old(table.objects)
    ensures h in t && Nondegenerate(ClientRect(t[h])) ==>
              && region == old(table.nextHandle) && region in table.objects && table.objects[region].Region?
              && table.objects == old(table.objects)[region := table.objects[region]]
              && forall x, y :: Covers(table.objects[region].rects, x, y) <==>
                                InRect(ClientRect(t[h]), x, y) && !Hidden(t, h, x, y)
  {
    if h !in t || NormalizeRect(ClientRect(t[h])).None? {
      return 0;
    }
    var covering := Covering(t, h);
    region := table.CreateClientClip(ClientRect(t[h]), covering);
  }

  // ----- the same picture on the screen

  /** The outer rectangle at its place on the screen. */
  ghost function OnScreen(t: Tree, w: int, k: nat): Rect
    requires w in t && RootAt(t, w, k)
  {
    var o := ScreenOrigin(t, w, k);
    Rect(o.x, o.y, o.x + Max(t[w].width, 0), o.y + Max(t[w].height, 0))
  }

  /** A child hides exactly the points it occupies on the screen. */
  lemma ChildOnScreen(t: Tree, w: int, k: nat, x: int, y: int)
    requires RootAt(t, w, k) && k > 0 && w in t && t[w].parent in t && RootAt(t, t[w].parent, k - 1)
    ensures var o := ScreenOrigin(t, t[w].parent, k - 1);
      InRect(ChildRect(t[t[w].parent], t[w]), x, y) <==> InRect(OnScreen(t, w, k), o.x + x, o.y + y)
  {
  }

  /** And so does a sibling. */
  lemma SiblingOnScreen(t: Tree, h: int, w: int, k: nat, x: int, y: int)
    requires RootAt(t, h, k) && RootAt(t, w, k) && k > 0 && h in t && w in t && t[w].parent == t[h].parent
    ensures var o := ScreenOrigin(t, h, k);
      InRect(SiblingRect(t[h], t[w]), x, y) <==> InRect(OnScreen(t, w, k), o.x + x, o.y + y)
  {
    RootBelow(t, h, k);
    RootBelow(t, w, k);
  }
}
