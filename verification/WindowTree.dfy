/** The guest window tree: parent links in a map, walked up for coordinates and visibility
and down for destruction. */
module WindowTree {
  import opened Common

  /** The insets are the frame metrics that style and state imply; `clipChildren` and
      `clipSiblings` are the style bits of those names. */
  datatype Window = Window(parent: int, child: bool, x: int, y: int, width: int, height: int,
                           zOrder: nat, visible: bool,
                           insetLeft: int, insetTop: int, insetRight: int, insetBottom: int,
                           clipChildren: bool, clipSiblings: bool)

  type Tree = map<int, Window>

  /** A true child lives in its parent's client coordinates. */
  predicate InParentCoordinates(t: Tree, h: int) {
    h in t && t[h].parent != 0 && t[h].child
  }

  /** The `n`-th ancestor, if the parent links reach that far. */
  function Ancestor(t: Tree, h: int, n: nat): Option<int>
    decreases n
  {
    if n == 0 then Some(h) else if h in t then Ancestor(t, t[h].parent, n - 1) else None
  }

  ghost predicate Under(t: Tree, w: int, h: int) {
    exists n: nat :: Ancestor(t, w, n) == Some(h)
  }

  ghost predicate Acyclic(t: Tree) {
    forall h: int, n: nat :: n >= 1 ==> Ancestor(t, h, n) != Some(h)
  }

  // ----- ancestors

  lemma {:induction false} AncestorSum(t: Tree, h: int, m: nat, n: nat)
    ensures Ancestor(t, h, m + n) ==
            match Ancestor(t, h, m) case None => None case Some(a) => Ancestor(t, a, n)
    decreases m
  {
    if m > 0 && h in t {
      AncestorSum(t, t[h].parent, m - 1, n);
    }
  }

  lemma AncestorNext(t: Tree, h: int, n: nat)
    ensures Ancestor(t, h, n + 1) ==
            match Ancestor(t, h, n) case None => None case Some(a) => if a in t then Some(t[a].parent) else None
  {
    AncestorSum(t, h, n, 1);
    if Ancestor(t, h, n).Some? && Ancestor(t, h, n).value in t {
      assert Ancestor(t, t[Ancestor(t, h, n).value].parent, 0) == Some(t[Ancestor(t, h, n).value].parent);
    }
  }

  lemma AncestorBefore(t: Tree, h: int, m: nat, n: nat)
    requires m < n && Ancestor(t, h, n).Some?
    ensures Ancestor(t, h, m).Some? && Ancestor(t, h, m).value in t
  {
    AncestorSum(t, h, m, n - m);
  }

  /** Two equal entries below a given height repeat for good. */
  lemma AncestorShift(t: Tree, h: int, i: nat, j: nat, d: nat)
    requires Ancestor(t, h, i).Some? && Ancestor(t, h, i) == Ancestor(t, h, j)
    ensures Ancestor(t, h, i + d) == Ancestor(t, h, j + d)
  {
    AncestorSum(t, h, i, d);
    AncestorSum(t, h, j, d);
  }

  /** The first `n` windows of a walk. */
  ghost function Walk(t: Tree, h: int, n: nat): set<int> {
    if n == 0 then {} else Walk(t, h, n - 1) + match Ancestor(t, h, n - 1) case None => {} case Some(a) => {a}
  }

  lemma {:induction false} WalkMember(t: Tree, h: int, n: nat, a: int) returns (i: nat)
    requires a in Walk(t, h, n)
    ensures i < n && Ancestor(t, h, i) == Some(a)
  {
    if Ancestor(t, h, n - 1) == Some(a) {
      i := n - 1;
    } else {
      i := WalkMember(t, h, n - 1, a);
    }
  }

  lemma {:induction false} WalkSize(t: Tree, h: int, n: nat)
    requires forall i: nat :: i < n ==> Ancestor(t, h, i).Some?
    requires forall i: nat, j: nat :: i < j < n ==> Ancestor(t, h, i) != Ancestor(t, h, j)
    ensures |Walk(t, h, n)| == n
  {
    if n > 0 {
      WalkSize(t, h, n - 1);
      var last := Ancestor(t, h, n - 1).value;
      if last in Walk(t, h, n - 1) {
        var i := WalkMember(t, h, n - 1, last);
      }
    }
  }

  /** Pigeonhole: a walk of pairwise different windows is at most as long as the map is large. */
  lemma WalkFits(t: Tree, h: int, n: nat)
    requires forall i: nat :: i < n ==> Ancestor(t, h, i).Some? && Ancestor(t, h, i).value in t
    requires forall i: nat, j: nat :: i < j < n ==> Ancestor(t, h, i) != Ancestor(t, h, j)
    ensures n <= |t|
  {
    WalkSize(t, h, n);
    forall a | a in Walk(t, h, n) ensures a in t {
      var i := WalkMember(t, h, n, a);
    }
    SubsetSize(Walk(t, h, n), t.Keys);
  }

  lemma {:induction false} CycleRepeats(t: Tree, h: int, n: nat, k: nat)
    requires n >= 1 && Ancestor(t, h, n) == Some(h)
    ensures Ancestor(t, h, k).Some?
    decreases k
  {
    if k <= n {
      if k < n { AncestorBefore(t, h, k, n); }
    } else {
      CycleRepeats(t, h, n, k - n);
      AncestorSum(t, h, n, k - n);
    }
  }

  predicate LeavesMap(t: Tree, h: int) {
    Ancestor(t, h, |t| + 1).None?
  }

  /** Being acyclic can be checked with bounded walks: it means that every walk up has left
      the map after as many steps as there are windows. */
  lemma AcyclicIff(t: Tree)
    ensures Acyclic(t) <==> forall h :: LeavesMap(t, h)
  {
    if Acyclic(t) {
      forall h ensures LeavesMap(t, h) {
        if Ancestor(t, h, |t| + 1).Some? {
          forall i: nat | i < |t| + 1 ensures Ancestor(t, h, i).Some? && Ancestor(t, h, i).value in t {
            AncestorBefore(t, h, i, |t| + 1);
          }
          forall i: nat, j: nat | i < j < |t| + 1 ensures Ancestor(t, h, i) != Ancestor(t, h, j) {
            AncestorSum(t, h, i, j - i);
          }
          WalkFits(t, h, |t| + 1);
        }
      }
    }
    if !Acyclic(t) {
      var h, n: nat :| n >= 1 && Ancestor(t, h, n) == Some(h);
      CycleRepeats(t, h, n, |t| + 1);
      assert !LeavesMap(t, h);
    }
  }

  // ----- walks to the root of the child chain

  /** `h` hangs `k` child links below a window in screen coordinates. */
  ghost predicate RootAt(t: Tree, h: int, k: nat) {
    && (forall i: nat :: i < k ==> Ancestor(t, h, i).Some? && InParentCoordinates(t, Ancestor(t, h, i).value))
    && Ancestor(t, h, k).Some? && Ancestor(t, h, k).value in t && !InParentCoordinates(t, Ancestor(t, h, k).value)
  }

  /** A walk that reaches a root never revisits a window, so it fits the loop bound. */
  lemma RootWithinBound(t: Tree, h: int, k: nat)
    requires RootAt(t, h, k)
    ensures k < |t|
  {
    forall i: nat, j: nat | i < j < k + 1 ensures Ancestor(t, h, i) != Ancestor(t, h, j) {
      if Ancestor(t, h, i) == Ancestor(t, h, j) {
        AncestorShift(t, h, i, j, k - j);
      }
    }
    WalkFits(t, h, k + 1);
  }

  lemma RootUnique(t: Tree, h: int, j: nat, k: nat)
    requires RootAt(t, h, j) && RootAt(t, h, k)
    ensures j == k
  {
  }

  datatype Point = Point(x: int, y: int)

  function Add(a: Point, b: Point): Point { Point(a.x + b.x, a.y + b.y) }

  function Offset(t: Tree, h: int): Point
    requires h in t
  {
    Point(t[h].x, t[h].y)
  }

  function Inset(t: Tree, h: int): Point
    requires h in t
  {
    Point(t[h].insetLeft, t[h].insetTop)
  }

  /** The outer corner in screen coordinates, one child link at a time. */
  ghost function ScreenOrigin(t: Tree, h: int, k: nat): Point
    requires RootAt(t, h, k)
    decreases k
  {
    if k == 0 then assert Ancestor(t, h, 0) == Some(h); Offset(t, h)
    else
      RootBelow(t, h, k);
      Add(Add(Offset(t, h), Inset(t, t[h].parent)), ScreenOrigin(t, t[h].parent, k - 1))
  }

  lemma RootBelow(t: Tree, h: int, k: nat)
    requires RootAt(t, h, k) && k > 0
    ensures h in t && t[h].parent in t && RootAt(t, t[h].parent, k - 1)
  {
    assert Ancestor(t, h, 0) == Some(h);
    forall i: nat | i <= k - 1 ensures Ancestor(t, t[h].parent, i) == Ancestor(t, h, i + 1) {
    }
    assert Ancestor(t, t[h].parent, 0) == Some(t[h].parent);
  }

  ghost predicate AllVisible(t: Tree, h: int, k: nat)
    requires RootAt(t, h, k)
  {
    forall i: nat :: i <= k ==> t[Ancestor(t, h, i).value].visible
  }

  lemma NoRootPastMissing(t: Tree, h: int, n: nat)
    requires Ancestor(t, h, n).Some? && Ancestor(t, h, n).value !in t
    ensures forall k: nat :: k >= n ==> !RootAt(t, h, k)
  {
    forall k: nat | k >= n ensures !RootAt(t, h, k) {
      if k > n && Ancestor(t, h, k).Some? {
        AncestorBefore(t, h, n, k);
      }
    }
  }

  /** The walk has climbed `step` child links to `current`, and `acc` is what it has summed. */
  ghost predicate Climbed(t: Tree, h: int, step: nat, current: int, acc: Point) {
    && Ancestor(t, h, step) == Some(current)
    && (forall i: nat :: i < step ==> Ancestor(t, h, i).Some? && InParentCoordinates(t, Ancestor(t, h, i).value))
    && (forall k: nat :: RootAt(t, h, k) ==> OriginSplits(t, h, k, step, current, acc))
  }

  ghost predicate OriginSplits(t: Tree, h: int, k: nat, step: nat, current: int, acc: Point)
    requires RootAt(t, h, k)
  {
    k >= step && RootAt(t, current, k - step) && ScreenOrigin(t, h, k) == Add(acc, ScreenOrigin(t, current, k - step))
  }

  lemma Climb(t: Tree, h: int, step: nat, current: int, acc: Point)
    requires Climbed(t, h, step, current, acc) && InParentCoordinates(t, current) && t[current].parent in t
    ensures Climbed(t, h, step + 1, t[current].parent, Add(Add(acc, Offset(t, current)), Inset(t, t[current].parent)))
  {
    AncestorNext(t, h, step);
    forall k: nat | RootAt(t, h, k)
      ensures OriginSplits(t, h, k, step + 1, t[current].parent,
                           Add(Add(acc, Offset(t, current)), Inset(t, t[current].parent)))
    {
      assert OriginSplits(t, h, k, step, current, acc);
      assert Ancestor(t, current, 0) == Some(current);
      RootBelow(t, current, k - step);
    }
  }

  lemma Arrived(t: Tree, h: int, step: nat, current: int, acc: Point)
    requires Climbed(t, h, step, current, acc) && current in t && !InParentCoordinates(t, current)
    ensures RootAt(t, h, step) && forall k: nat ::
              RootAt(t, h, k) ==> ScreenOrigin(t, h, k) == Add(acc, Offset(t, current))
  {
    forall k: nat | RootAt(t, h, k) ensures ScreenOrigin(t, h, k) == Add(acc, Offset(t, current)) {
      assert OriginSplits(t, h, k, step, current, acc);
      RootUnique(t, h, step, k);
    }
  }

  lemma Lost(t: Tree, h: int, step: nat, current: int, acc: Point)
    requires Climbed(t, h, step, current, acc)
    requires current !in t || (InParentCoordinates(t, current) && t[current].parent !in t)
    ensures forall k: nat :: !RootAt(t, h, k)
  {
    AncestorNext(t, h, step);
    if current !in t {
      NoRootPastMissing(t, h, step);
    } else {
      NoRootPastMissing(t, h, step + 1);
    }
  }

  // ----- descendants

  ghost function Subtree(t: Tree, h: int): set<int> {
    set w | w in t && Under(t, w, h)
  }

  lemma UnderSelf(t: Tree, h: int)
    ensures Under(t, h, h)
  {
    assert Ancestor(t, h, 0) == Some(h);
  }

  /** A proper descendant lies under exactly one of the children. */
  lemma UnderChild(t: Tree, w: int, h: int)
    requires Under(t, w, h) && w != h
    ensures exists c :: c in t && t[c].parent == h && Under(t, w, c)
  {
    var n: nat :| Ancestor(t, w, n) == Some(h);
    AncestorBefore(t, w, n - 1, n);
    AncestorNext(t, w, n - 1);
    var c := Ancestor(t, w, n - 1).value;
    assert c in t && t[c].parent == h && Under(t, w, c);
  }

  lemma ChildUnder(t: Tree, w: int, c: int)
    requires Under(t, w, c) && c in t
    ensures Under(t, w, t[c].parent)
  {
    var n: nat :| Ancestor(t, w, n) == Some(c);
    AncestorNext(t, w, n);
  }

  lemma NotUnderOwnChild(t: Tree, c: int)
    requires Acyclic(t) && c in t
    ensures !Under(t, t[c].parent, c)
  {
    forall n: nat ensures Ancestor(t, t[c].parent, n) != Some(c) {
      assert Ancestor(t, c, n + 1) == Ancestor(t, t[c].parent, n);
    }
  }

  lemma SiblingsApart(t: Tree, w: int, c: int, c': int)
    requires Acyclic(t) && c in t && c' in t && t[c].parent == t[c'].parent
    requires Under(t, w, c) && Under(t, w, c')
    ensures c == c'
  {
    var m: nat :| Ancestor(t, w, m) == Some(c);
    var n: nat :| Ancestor(t, w, n) == Some(c');
    if m < n {
      AncestorSum(t, w, m, n - m);
      assert Ancestor(t, t[c].parent, n - m - 1) == Some(c');
      NotUnderOwnChild(t, c');
    } else if n < m {
      AncestorSum(t, w, n, m - n);
      assert Ancestor(t, t[c'].parent, m - n - 1) == Some(c);
      NotUnderOwnChild(t, c);
    }
  }

  lemma SubtreeShrinks(t: Tree, c: int)
    requires Acyclic(t) && c in t
    ensures Subtree(t, c) <= Subtree(t, t[c].parent)
    ensures |Subtree(t, c)| <= |Subtree(t, t[c].parent)|
    ensures t[c].parent in t ==> |Subtree(t, c)| < |Subtree(t, t[c].parent)|
  {
    var h := t[c].parent;
    forall w | w in Subtree(t, c) ensures w in Subtree(t, h) {
      ChildUnder(t, w, c);
    }
    SubsetSize(Subtree(t, c), Subtree(t, h));
    if h in t {
      UnderSelf(t, h);
      NotUnderOwnChild(t, c);
      SubsetSize(Subtree(t, c), Subtree(t, h) - {h});
    }
  }

  // ----- the direct children, in z-order

  predicate Before(t: Tree, a: int, b: int)
    requires a in t && b in t
  {
    t[a].zOrder < t[b].zOrder || (t[a].zOrder == t[b].zOrder && a < b)
  }

  predicate InZOrder(t: Tree, list: seq<int>) {
    && (forall i :: 0 <= i < |list| ==> list[i] in t)
    && (forall i, j :: 0 <= i < j < |list| ==> Before(t, list[i], list[j]))
  }

  function InsertByZ(t: Tree, list: seq<int>, h: int): (r: seq<int>)
    requires InZOrder(t, list) && h in t && h !in list
    ensures InZOrder(t, r) && (forall w :: w in r <==> w in list || w == h)
  {
    if list == [] || Before(t, h, list[0]) then [h] + list
    else
      assert list == [list[0]] + list[1..];
      var rest := InsertByZ(t, list[1..], h);
      assert forall j :: 0 <= j < |rest| ==> rest[j] in rest;
      [list[0]] + rest
  }

  /** Every child once, bottom to top. */
  ghost predicate IsChildList(t: Tree, h: int, list: seq<int>) {
    InZOrder(t, list) && forall w :: w in list <==> w in t && t[w].parent == h
  }

  /** A subtree in one of the two traversal orders: every window of it once, and every window
      on the required side of its parent. */
  ghost predicate IsTraversal(t: Tree, h: int, out: seq<int>, childrenFirst: bool) {
    && (forall w :: w in out <==> w in Subtree(t, h))
    && InTraversalOrder(t, out, childrenFirst)
  }

  ghost predicate InTraversalOrder(t: Tree, out: seq<int>, childrenFirst: bool) {
    && (forall i, j :: 0 <= i < j < |out| ==> out[i] != out[j])
    && (forall i, j :: 0 <= i < |out| && 0 <= j < |out| && out[i] in t && t[out[i]].parent == out[j] ==>
          if childrenFirst then i < j else j < i)
  }

  /** `out` lists the subtrees of `kids`, each in the given order. */
  ghost predicate KidsListed(t: Tree, kids: seq<int>, out: seq<int>, childrenFirst: bool) {
    && (forall w :: w in out <==> exists k :: 0 <= k < |kids| && w in Subtree(t, kids[k]))
    && InTraversalOrder(t, out, childrenFirst)
  }

  lemma AddKid(t: Tree, h: int, kids: seq<int>, out: seq<int>, kid: int, sub: seq<int>, childrenFirst: bool)
    requires Acyclic(t)
    requires forall k :: 0 <= k < |kids| ==> kids[k] in t && t[kids[k]].parent == h && kids[k] != kid
    requires kid in t && t[kid].parent == h
    requires KidsListed(t, kids, out, childrenFirst) && IsTraversal(t, kid, sub, childrenFirst)
    ensures KidsListed(t, kids + [kid], out + sub, childrenFirst)
  {
    forall w | w in out ensures !Under(t, w, kid) {
      var k :| 0 <= k < |kids| && w in Subtree(t, kids[k]);
      if Under(t, w, kid) { SiblingsApart(t, w, kids[k], kid); }
    }
    forall w ensures w in out + sub <==> exists k :: 0 <= k < |kids + [kid]| && w in Subtree(t, (kids + [kid])[k]) {
      if w in out {
        var k :| 0 <= k < |kids| && w in Subtree(t, kids[k]);
        assert (kids + [kid])[k] == kids[k];
      }
      if w in sub { assert (kids + [kid])[|kids|] == kid; }
    }
    forall w, p | w in t && t[w].parent == p && ((w in out && p in sub) || (w in sub && p in out)) ensures false {
      if p in sub {
        ParentStaysUnder(t, w, kid);
      } else {
        var k :| 0 <= k < |kids| && p in Subtree(t, kids[k]);
        ParentStaysUnder(t, w, kids[k]);
      }
    }
    JoinInOrder(t, out, sub, childrenFirst);
  }

  lemma JoinInOrder(t: Tree, a: seq<int>, b: seq<int>, childrenFirst: bool)
    requires InTraversalOrder(t, a, childrenFirst) && InTraversalOrder(t, b, childrenFirst)
    requires forall w :: w in a ==> w !in b
    requires forall w :: w in a && w in t && t[w].parent in b ==> childrenFirst
    requires forall w :: w in b && w in t && t[w].parent in a ==> !childrenFirst
    ensures InTraversalOrder(t, a + b, childrenFirst)
  {
    forall i, j | 0 <= i < j < |a + b| ensures (a + b)[i] != (a + b)[j] {
      if i < |a| && |a| <= j {
        assert a[i] in a && b[j - |a|] in b;
      }
    }
    forall i, j | 0 <= i < |a + b| && 0 <= j < |a + b| && (a + b)[i] in t && t[(a + b)[i]].parent == (a + b)[j]
      ensures if childrenFirst then i < j else j < i
    {
      if i < |a| && |a| <= j {
        assert a[i] in a && b[j - |a|] in b;
      } else if j < |a| && |a| <= i {
        assert b[i - |a|] in b && a[j] in a;
      }
    }
  }

  lemma ParentStaysUnder(t: Tree, w: int, c: int)
    requires w in t && Under(t, t[w].parent, c)
    ensures Under(t, w, c)
  {
    var n: nat :| Ancestor(t, t[w].parent, n) == Some(c);
    assert Ancestor(t, w, n + 1) == Some(c);
  }

  function WithRoot(h: int, out: seq<int>, childrenFirst: bool): seq<int> {
    if childrenFirst then out + [h] else [h] + out
  }

  lemma KidsListedMembers(t: Tree, h: int, kids: seq<int>, out: seq<int>, childrenFirst: bool, w: int)
    requires Acyclic(t) && IsChildList(t, h, kids) && KidsListed(t, kids, out, childrenFirst)
    ensures w in out <==> w in Subtree(t, h) && w != h
  {
    if w in out {
      var k :| 0 <= k < |kids| && w in Subtree(t, kids[k]);
      assert kids[k] in kids;
      ChildUnder(t, w, kids[k]);
      NotUnderOwnChild(t, kids[k]);
    }
    if w in Subtree(t, h) && w != h {
      UnderChild(t, w, h);
      var c :| c in t && t[c].parent == h && Under(t, w, c);
      assert c in kids;
      var k :| 0 <= k < |kids| && kids[k] == c;
      assert w in Subtree(t, kids[k]);
    }
  }

  lemma AddSelf(t: Tree, h: int, kids: seq<int>, out: seq<int>, childrenFirst: bool)
    requires Acyclic(t) && IsChildList(t, h, kids) && KidsListed(t, kids, out, childrenFirst)
    ensures IsTraversal(t, h, if h in t then WithRoot(h, out, childrenFirst) else out, childrenFirst)
  {
    forall w ensures w in out <==> w in Subtree(t, h) && w != h {
      KidsListedMembers(t, h, kids, out, childrenFirst, w);
    }
    if h in t {
      UnderSelf(t, h);
      NotUnderOwnChild(t, h);
      UnderSelf(t, t[h].parent);
      assert t[h].parent !in out && t[h].parent != h;
      assert InTraversalOrder(t, [h], childrenFirst);
      if childrenFirst {
        JoinInOrder(t, out, [h], childrenFirst);
      } else {
        JoinInOrder(t, [h], out, childrenFirst);
      }
    }
  }

  lemma {:induction false} FewerLinks(t: Tree, s: Tree, h: int, n: nat)
    requires forall w :: w in s ==> w in t && s[w].parent == t[w].parent
    ensures Ancestor(s, h, n).Some? ==> Ancestor(t, h, n) == Ancestor(s, h, n)
    decreases n
  {
    if n > 0 && h in s {
      FewerLinks(t, s, s[h].parent, n - 1);
    }
  }

  lemma RemovalKeepsAcyclic(t: Tree, s: Tree)
    requires Acyclic(t) && forall w :: w in s ==> w in t && s[w].parent == t[w].parent
    ensures Acyclic(s)
  {
    forall h: int, n: nat | n >= 1 ensures Ancestor(s, h, n) != Some(h) {
      FewerLinks(t, s, h, n);
    }
  }
}
