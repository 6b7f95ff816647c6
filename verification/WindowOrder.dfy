/** Stacking order among the children of one parent, and what SetWindowPos does to it. */
module WindowOrder {
  import opened WindowTree

  function PositionOf(order: seq<int>, w: int): (i: nat)
    requires w in order
    ensures i < |order| && order[i] == w && w !in order[..i]
  {
    if order[0] == w then 0 else 1 + PositionOf(order[1..], w)
  }

  const HWND_TOP := 0
  const HWND_BOTTOM := 1

  /** Where among its siblings the window goes: on top, at the bottom, just above the named
      sibling, or on top when there is no such sibling. */
  function InsertIndex(siblings: seq<int>, insertAfter: int): (i: nat)
    ensures i <= |siblings|
  {
    if insertAfter == HWND_TOP then |siblings|
    else if insertAfter == HWND_BOTTOM then 0
    else if insertAfter in siblings then PositionOf(siblings, insertAfter) + 1
    else |siblings|
  }

  function InsertAt(siblings: seq<int>, i: nat, h: int): seq<int>
    requires i <= |siblings|
  {
    siblings[..i] + [h] + siblings[i..]
  }

  function Without(order: seq<int>, h: int): seq<int> {
    if order == [] then [] else if order[0] == h then Without(order[1..], h) else [order[0]] + Without(order[1..], h)
  }

  function Restacked(order: seq<int>, h: int, insertAfter: int): seq<int> {
    var siblings := Without(order, h);
    InsertAt(siblings, InsertIndex(siblings, insertAfter), h)
  }

  predicate NoRepeats(order: seq<int>) {
    forall i, j :: 0 <= i < j < |order| ==> order[i] != order[j]
  }

  /** What restacking means: the others keep their order, and the window ends on top, at the
      bottom, or directly above the sibling named. */
  lemma RestackedMeaning(order: seq<int>, h: int, insertAfter: int)
    ensures var r := Restacked(order, h, insertAfter);
      && Without(r, h) == Without(order, h)
      && (insertAfter == 1 ==> r[0] == h)
      && (insertAfter == 0 || insertAfter == h || insertAfter !in order ==> insertAfter == 1 || r[|r| - 1] == h)
      && (insertAfter != 0 && insertAfter != 1 && insertAfter != h && insertAfter in order ==>
            exists i :: 0 <= i < |r| - 1 && r[i] == insertAfter && r[i + 1] == h)
  {
    var siblings := Without(order, h);
    var at := InsertIndex(siblings, insertAfter);
    var r := Restacked(order, h, insertAfter);
    WithoutMembers(order, h);
    WithoutInserted(siblings, at, h);
    assert r[at] == h;
    if at > 0 {
      assert r[at - 1] == siblings[at - 1];
    }
  }

  lemma {:induction false} WithoutInserted(siblings: seq<int>, at: nat, h: int)
    requires at <= |siblings| && h !in siblings
    ensures Without(InsertAt(siblings, at, h), h) == siblings
  {
    var r := InsertAt(siblings, at, h);
    if at == 0 {
      assert r[1..] == siblings;
      WithoutAbsent(siblings, h);
    } else {
      assert r[1..] == InsertAt(siblings[1..], at - 1, h);
      WithoutInserted(siblings[1..], at - 1, h);
    }
  }

  lemma {:induction false} WithoutAbsent(a: seq<int>, h: int)
    requires h !in a
    ensures Without(a, h) == a
  {
    if a != [] {
      WithoutAbsent(a[1..], h);
    }
  }

  /** The listed windows numbered by their places; everything else as it was. */
  ghost predicate Renumbered(t: Tree, order: seq<int>, s: Tree) {
    && s.Keys == t.Keys
    && forall w :: w in t ==> s[w] == if w in order then t[w].(zOrder := PositionOf(order, w)) else t[w]
  }

  lemma PositionIs(order: seq<int>, i: nat)
    requires NoRepeats(order) && i < |order|
    ensures PositionOf(order, order[i]) == i
  {
  }

  lemma FirstIsMember(a: seq<int>, b: seq<int>)
    requires forall w :: w in a ==> w in b
    ensures a != [] ==> a[0] in b && b != []
  {
    if a != [] {
      var first := a[0];
      assert first in a;
    }
  }

  /** Z-order settles the list of children: there is only one. */
  lemma {:induction false} InZOrderUnique(t: Tree, a: seq<int>, b: seq<int>)
    requires InZOrder(t, a) && InZOrder(t, b) && forall w :: w in a <==> w in b
    ensures a == b
    decreases |a|
  {
    FirstIsMember(a, b);
    FirstIsMember(b, a);
    if a != [] {
      SameFirst(t, a, b);
      forall w ensures w in a[1..] <==> w in b[1..] {
        TailMember(t, a, w);
        TailMember(t, b, w);
      }
      InZOrderUnique(t, a[1..], b[1..]);
      assert a == [a[0]] + a[1..] && b == [b[0]] + b[1..];
    }
  }

  lemma SameFirst(t: Tree, a: seq<int>, b: seq<int>)
    requires InZOrder(t, a) && InZOrder(t, b) && a != [] && b != [] && a[0] in b && b[0] in a
    ensures a[0] == b[0]
  {
    var i :| 0 <= i < |b| && b[i] == a[0];
    var j :| 0 <= j < |a| && a[j] == b[0];
    assert i > 0 ==> Before(t, b[0], b[i]);
    assert j > 0 ==> Before(t, a[0], a[j]);
  }

  lemma TailMember(t: Tree, a: seq<int>, w: int)
    requires InZOrder(t, a) && a != []
    ensures w in a[1..] <==> w in a && w != a[0]
  {
    assert a == [a[0]] + a[1..];
    if w in a[1..] {
      var i :| 0 <= i < |a[1..]| && a[1..][i] == w;
      assert Before(t, a[0], a[i + 1]);
    }
  }

  lemma ChildListUnique(t: Tree, p: int, a: seq<int>, b: seq<int>)
    requires IsChildList(t, p, a) && IsChildList(t, p, b)
    ensures a == b
  {
    InZOrderUnique(t, a, b);
  }

  lemma {:induction false} WithoutMembers(order: seq<int>, h: int)
    ensures forall w :: w in Without(order, h) <==> w in order && w != h
  {
    if order != [] {
      WithoutMembers(order[1..], h);
      assert order == [order[0]] + order[1..];
    }
  }

  lemma {:induction false} WithoutInOrder(t: Tree, order: seq<int>, h: int)
    requires InZOrder(t, order)
    ensures InZOrder(t, Without(order, h))
    decreases |order|
  {
    if order != [] {
      WithoutInOrder(t, order[1..], h);
      if order[0] != h {
        WithoutMembers(order[1..], h);
        FirstBeforeAll(t, order, Without(order[1..], h));
      }
    }
  }

  lemma FirstBeforeAll(t: Tree, order: seq<int>, rest: seq<int>)
    requires order != [] && InZOrder(t, order) && InZOrder(t, rest) && forall w :: w in rest ==> w in order[1..]
    ensures InZOrder(t, [order[0]] + rest)
  {
    forall j | 0 <= j < |rest| ensures Before(t, order[0], rest[j]) {
      var w := rest[j];
      assert w in rest;
      var i :| 0 <= i < |order[1..]| && order[1..][i] == w;
      assert order[i + 1] == w;
    }
  }

  /** After renumbering, the list of children is the order the numbers were taken from. */
  lemma RenumberedOrder(t: Tree, p: int, order: seq<int>, s: Tree)
    requires NoRepeats(order) && Renumbered(t, order, s)
    requires forall w :: w in order <==> w in t && t[w].parent == p
    ensures IsChildList(s, p, order)
  {
    forall i, j | 0 <= i < j < |order| ensures order[i] in s && order[j] in s && Before(s, order[i], order[j]) {
      assert order[i] in order && order[j] in order;
      PositionIs(order, i);
      PositionIs(order, j);
    }
    forall i | 0 <= i < |order| ensures order[i] in s {
      var w := order[i];
      assert w in order;
    }
  }

  lemma ListedChild(t: Tree, q: int, list: seq<int>, w: int)
    requires IsChildList(t, q, list) && w in list
    ensures w in t && t[w].parent == q
  {
  }

  /** Renumbering one parent's children leaves every other parent's list alone. */
  lemma RenumberedElsewhere(t: Tree, p: int, order: seq<int>, s: Tree, q: int, list: seq<int>)
    requires Renumbered(t, order, s) && (forall w :: w in order && w in t ==> t[w].parent == p)
    requires q != p && IsChildList(t, q, list)
    ensures IsChildList(s, q, list)
  {
    forall i | 0 <= i < |list| ensures list[i] in t && s[list[i]] == t[list[i]] {
      ListedChild(t, q, list, list[i]);
    }
  }

  /** Numbering a list that is in z-order keeps it in z-order, gaps and strangers included. */
  lemma RenumberedKeepsOrder(t: Tree, p: int, order: seq<int>, s: Tree, list: seq<int>)
    requires NoRepeats(order) && Renumbered(t, order, s) && IsChildList(t, p, list)
    requires forall w :: w in list ==> w in order
    requires forall i, j :: 0 <= i < j < |list| ==> PositionOf(order, list[i]) < PositionOf(order, list[j])
    ensures IsChildList(s, p, list)
  {
    forall i, j | 0 <= i < j < |list| ensures list[i] in s && list[j] in s && Before(s, list[i], list[j]) {
      ListedChild(t, p, list, list[i]);
      ListedChild(t, p, list, list[j]);
    }
    forall i | 0 <= i < |list| ensures list[i] in s {
      ListedChild(t, p, list, list[i]);
    }
  }

  lemma InsertedPlace(siblings: seq<int>, at: nat, h: int, k: nat)
    requires at <= |siblings| && k < |siblings| && NoRepeats(siblings) && h !in siblings
    ensures var order := InsertAt(siblings, at, h);
      && NoRepeats(order) && siblings[k] in order
      && PositionOf(order, siblings[k]) == if k < at then k else k + 1
  {
    var order := InsertAt(siblings, at, h);
    InsertedNoRepeats(siblings, at, h);
    var place := if k < at then k else k + 1;
    assert order[place] == siblings[k];
    PositionIs(order, place);
  }

  lemma InsertedNoRepeats(siblings: seq<int>, at: nat, h: int)
    requires at <= |siblings| && NoRepeats(siblings) && h !in siblings
    ensures NoRepeats(InsertAt(siblings, at, h))
    ensures forall w :: w in InsertAt(siblings, at, h) <==> w in siblings || w == h
  {
    assert siblings == siblings[..at] + siblings[at..];
  }

  /** The same children in the same order. */
  ghost predicate SameOrder(t: Tree, s: Tree, p: int) {
    forall list :: IsChildList(t, p, list) ==> IsChildList(s, p, list)
  }

  /** What the renumbering loop of SetWindowPos does to every parent's children. */
  lemma RestackedChildren(t: Tree, p: int, h: int, siblings: seq<int>, insertAfter: int, s: Tree)
    requires InZOrder(t, siblings) && forall w :: w in siblings <==> w in t && t[w].parent == p && w != h
    requires h in t ==> t[h].parent == p
    requires Renumbered(t, InsertAt(siblings, InsertIndex(siblings, insertAfter), h), s)
    ensures h in t ==> forall list :: IsChildList(t, p, list) ==> IsChildList(s, p, Restacked(list, h, insertAfter))
    ensures h !in t ==> SameOrder(t, s, p)
    ensures forall q :: q != p ==> SameOrder(t, s, q)
  {
    var at := InsertIndex(siblings, insertAfter);
    var order := InsertAt(siblings, at, h);
    assert NoRepeats(siblings);
    InsertedNoRepeats(siblings, at, h);
    if h in t {
      RenumberedOrder(t, p, order, s);
      forall list | IsChildList(t, p, list) ensures IsChildList(s, p, Restacked(list, h, insertAfter)) {
        WithoutMembers(list, h);
        WithoutInOrder(t, list, h);
        InZOrderUnique(t, Without(list, h), siblings);
      }
    } else {
      forall list | IsChildList(t, p, list) ensures IsChildList(s, p, list) {
        InZOrderUnique(t, list, siblings);
        forall i, j | 0 <= i < j < |list| ensures PositionOf(order, list[i]) < PositionOf(order, list[j]) {
          InsertedPlace(siblings, at, h, i);
          InsertedPlace(siblings, at, h, j);
        }
        RenumberedKeepsOrder(t, p, order, s, list);
      }
    }
    forall q, list | q != p && IsChildList(t, q, list) ensures IsChildList(s, q, list) {
      RenumberedElsewhere(t, p, order, s, q, list);
    }
  }
}
