/** Rectangle algebra, and the GDI object table that `CombineRgn`, `EqualRgn` and
the clip helpers read and update. */
module RegionOps {
  import opened Common
  import opened Region
  import opened Canonicaliser

  datatype GdiObject = Region(rects: seq<Rect>) | Other

  const I32_MIN := -0x8000_0000
  const I32_MAX := 0x7fff_ffff

  const ERROR := 0
  const NULLREGION := 1
  const SIMPLEREGION := 2
  const COMPLEXREGION := 3

  const RGN_AND := 1
  const RGN_OR := 2
  const RGN_XOR := 3
  const RGN_DIFF := 4
  const RGN_COPY := 5

  function NormalizeRect(r: Rect): Option<Rect> {
    if Nondegenerate(r) then Some(r) else None
  }

  function IntersectRect(a: Rect, b: Rect): (r: Option<Rect>)
    ensures forall x, y :: r.Some? && InRect(r.value, x, y) <==> InRect(a, x, y) && InRect(b, x, y)
  {
    NormalizeRect(Rect(Max(a.left, b.left), Max(a.top, b.top), Min(a.right, b.right), Min(a.bottom, b.bottom)))
  }

  function ToSeq(r: Option<Rect>): seq<Rect> {
    match r
    case None => []
    case Some(rect) => [rect]
  }

  /** The part of `a` outside `b`, as strips above, below, left and right of the overlap. */
  function SubtractRect(a: Rect, b: Rect): seq<Rect> {
    match IntersectRect(a, b)
    case None => [a]
    case Some(cut) =>
      ToSeq(NormalizeRect(Rect(a.left, a.top, a.right, cut.top)))
      + ToSeq(NormalizeRect(Rect(a.left, cut.bottom, a.right, a.bottom)))
      + ToSeq(NormalizeRect(Rect(a.left, cut.top, cut.left, cut.bottom)))
      + ToSeq(NormalizeRect(Rect(cut.right, cut.top, a.right, cut.bottom)))
  }

  function RegionComplexity(rects: seq<Rect>): int {
    if |rects| == 0 then NULLREGION else if |rects| == 1 then SIMPLEREGION else COMPLEXREGION
  }

  lemma SubtractRectExact(a: Rect, b: Rect, x: int, y: int)
    ensures Covers(SubtractRect(a, b), x, y) <==> InRect(a, x, y) && !InRect(b, x, y)
  {
    var cut := IntersectRect(a, b);
    if cut.Some? {
      var c := cut.value;
      var up := Rect(a.left, a.top, a.right, c.top);
      var down := Rect(a.left, c.bottom, a.right, a.bottom);
      var west := Rect(a.left, c.top, c.left, c.bottom);
      var east := Rect(c.right, c.top, a.right, c.bottom);
      OptionArea(up, x, y);
      OptionArea(down, x, y);
      OptionArea(west, x, y);
      OptionArea(east, x, y);
      CoversConcat(ToSeq(NormalizeRect(up)), ToSeq(NormalizeRect(down)), x, y);
      CoversConcat(ToSeq(NormalizeRect(up)) + ToSeq(NormalizeRect(down)), ToSeq(NormalizeRect(west)), x, y);
      CoversConcat(ToSeq(NormalizeRect(up)) + ToSeq(NormalizeRect(down)) + ToSeq(NormalizeRect(west)),
                   ToSeq(NormalizeRect(east)), x, y);
    } else {
      CoversOne(a, x, y);
    }
  }

  lemma OptionArea(r: Rect, x: int, y: int)
    ensures Covers(ToSeq(NormalizeRect(r)), x, y) <==> InRect(r, x, y)
  {
    CoversOne(r, x, y);
  }

  lemma CoversOne(r: Rect, x: int, y: int)
    ensures Covers([r], x, y) <==> InRect(r, x, y)
  {
    if InRect(r, x, y) { assert InRect([r][0], x, y); }
  }

  lemma SubtractRectDisjoint(a: Rect, b: Rect)
    ensures PairwiseDisjoint(SubtractRect(a, b))
  {
  }

  lemma DisjointConcat(a: seq<Rect>, b: seq<Rect>)
    requires PairwiseDisjoint(a) && PairwiseDisjoint(b)
    requires forall x, y :: Covers(a, x, y) ==> !Covers(b, x, y)
    ensures PairwiseDisjoint(a + b)
  {
    forall i, j, x, y | 0 <= i < j < |a + b| && InRect((a + b)[i], x, y)
      ensures !InRect((a + b)[j], x, y)
    {
      if i < |a| && |a| <= j {
        assert Covers(a, x, y);
        assert InRect(b[j - |a|], x, y) ==> Covers(b, x, y);
      }
    }
  }

  lemma CoversLast(rects: seq<Rect>, k: nat, x: int, y: int)
    requires k < |rects|
    ensures Covers(rects[..k + 1], x, y) <==> Covers(rects[..k], x, y) || InRect(rects[k], x, y)
  {
    assert rects[..k + 1] == rects[..k] + [rects[k]];
    CoversConcat(rects[..k], [rects[k]], x, y);
    CoversOne(rects[k], x, y);
  }

  lemma PrefixDisjoint(rects: seq<Rect>, k: nat)
    requires PairwiseDisjoint(rects) && k < |rects|
    ensures forall x, y :: Covers(rects[..k], x, y) ==> !InRect(rects[k], x, y)
  {
  }

  method SubtractOne(region: seq<Rect>, sub: Rect) returns (next: seq<Rect>)
    ensures forall x, y :: Covers(next, x, y) <==> Covers(region, x, y) && !InRect(sub, x, y)
    ensures PairwiseDisjoint(region) ==> PairwiseDisjoint(next)
  {
    next := [];
    for k := 0 to |region|
      invariant forall x, y :: Covers(next, x, y) <==> Covers(region[..k], x, y) && !InRect(sub, x, y)
      invariant PairwiseDisjoint(region) ==> PairwiseDisjoint(next)
    {
      var pieces := SubtractRect(region[k], sub);
      forall x, y
        ensures Covers(pieces, x, y) <==> InRect(region[k], x, y) && !InRect(sub, x, y)
        ensures Covers(next + pieces, x, y) <==> Covers(next, x, y) || Covers(pieces, x, y)
        ensures Covers(region[..k + 1], x, y) <==> Covers(region[..k], x, y) || InRect(region[k], x, y)
      {
        SubtractRectExact(region[k], sub, x, y);
        CoversConcat(next, pieces, x, y);
        CoversLast(region, k, x, y);
      }
      if PairwiseDisjoint(region) {
        SubtractRectDisjoint(region[k], sub);
        PrefixDisjoint(region, k);
        DisjointConcat(next, pieces);
      }
      next := next + pieces;
    }
    assert region[..|region|] == region;
  }

  /** Set difference, subtractor by subtractor; overlap-free input stays overlap-free. */
  method SubtractRegionRects(region: seq<Rect>, subtractors: seq<Rect>) returns (current: seq<Rect>)
    ensures forall x, y :: Covers(current, x, y) <==> Covers(region, x, y) && !Covers(subtractors, x, y)
    ensures PairwiseDisjoint(region) ==> PairwiseDisjoint(current)
  {
    current := region;
    for k := 0 to |subtractors|
      invariant forall x, y :: Covers(current, x, y) <==> Covers(region, x, y) && !Covers(subtractors[..k], x, y)
      invariant PairwiseDisjoint(region) ==> PairwiseDisjoint(current)
    {
      forall x, y
        ensures Covers(subtractors[..k + 1], x, y) <==> Covers(subtractors[..k], x, y) || InRect(subtractors[k], x, y)
      {
        CoversLast(subtractors, k, x, y);
      }
      current := SubtractOne(current, subtractors[k]);
    }
    assert subtractors[..|subtractors|] == subtractors;
  }

  method Intersections(r1: seq<Rect>, r2: seq<Rect>) returns (out: seq<Rect>)
    ensures forall x, y :: Covers(out, x, y) <==> Covers(r1, x, y) && Covers(r2, x, y)
  {
    out := [];
    for i := 0 to |r1|
      invariant forall x, y :: Covers(out, x, y) <==> Covers(r1[..i], x, y) && Covers(r2, x, y)
    {
      ghost var row := out;
      for j := 0 to |r2|
        invariant forall x, y :: Covers(out, x, y) <==>
                                 Covers(row, x, y) || (InRect(r1[i], x, y) && Covers(r2[..j], x, y))
      {
        var cut := IntersectRect(r1[i], r2[j]);
        forall x, y
          ensures Covers(r2[..j + 1], x, y) <==> Covers(r2[..j], x, y) || InRect(r2[j], x, y)
          ensures cut.Some? ==> (Covers(out + [cut.value], x, y) <==> Covers(out, x, y) || InRect(cut.value, x, y))
        {
          CoversLast(r2, j, x, y);
          if cut.Some? {
            CoversConcat(out, [cut.value], x, y);
            CoversOne(cut.value, x, y);
          }
        }
        if cut.Some? {
          out := out + [cut.value];
        }
      }
      assert r2[..|r2|] == r2;
      forall x, y
        ensures Covers(r1[..i + 1], x, y) <==> Covers(r1[..i], x, y) || InRect(r1[i], x, y)
      {
        CoversLast(r1, i, x, y);
      }
    }
    assert r1[..|r1|] == r1;
  }

  /** The box between the extreme coordinates of the list, degenerate rectangles included;
      an empty list gives the box no `i32` point lies in. */
  ghost predicate IsExtent(rects: seq<Rect>, box: Rect) {
    && (forall i :: 0 <= i < |rects| ==>
          && box.left <= rects[i].left && box.top <= rects[i].top
          && rects[i].right <= box.right && rects[i].bottom <= box.bottom)
    && (box.left == I32_MAX || exists i :: 0 <= i < |rects| && box.left == rects[i].left)
    && (box.top == I32_MAX || exists i :: 0 <= i < |rects| && box.top == rects[i].top)
    && (box.right == I32_MIN || exists i :: 0 <= i < |rects| && box.right == rects[i].right)
    && (box.bottom == I32_MIN || exists i :: 0 <= i < |rects| && box.bottom == rects[i].bottom)
  }

  method Extent(rects: seq<Rect>) returns (box: Rect)
    ensures IsExtent(rects, box)
  {
    box := Rect(I32_MAX, I32_MAX, I32_MIN, I32_MIN);
    for k := 0 to |rects|
      invariant IsExtent(rects[..k], box)
    {
      var r := rects[k];
      assert rects[..k + 1] == rects[..k] + [r];
      assert rects[..k + 1][k] == r;
      assert forall i :: 0 <= i < k ==> rects[..k][i] == rects[..k + 1][i];
      box := Rect(Min(box.left, r.left), Min(box.top, r.top), Max(box.right, r.right), Max(box.bottom, r.bottom));
    }
    assert rects[..|rects|] == rects;
  }

  /** What each combination mode means for one point. */
  predicate Combines(mode: int, in1: bool, in2: bool)
    requires RGN_AND <= mode <= RGN_DIFF
  {
    if mode == RGN_AND then in1 && in2
    else if mode == RGN_OR then in1 || in2
    else if mode == RGN_XOR then in1 != in2
    else in1 && !in2
  }

  method RawCombination(r1: seq<Rect>, r2: seq<Rect>, mode: int) returns (raw: seq<Rect>)
    ensures RGN_AND <= mode <= RGN_DIFF ==>
              forall x, y :: Covers(raw, x, y) <==> Combines(mode, Covers(r1, x, y), Covers(r2, x, y))
    ensures mode == RGN_COPY ==> raw == r1
    ensures !(RGN_AND <= mode <= RGN_COPY) ==> exists box :: IsExtent(r1 + r2, box) && SameArea(raw, [box])
  {
    if mode == RGN_AND {
      raw := Intersections(r1, r2);
    } else if mode == RGN_OR {
      raw := r1 + r2;
      forall x, y ensures Covers(raw, x, y) <==> Covers(r1, x, y) || Covers(r2, x, y) {
        CoversConcat(r1, r2, x, y);
      }
    } else if mode == RGN_XOR {
      var only1 := SubtractRegionRects(r1, r2);
      var only2 := SubtractRegionRects(r2, r1);
      raw := only1 + only2;
      forall x, y ensures Covers(raw, x, y) <==> Covers(only1, x, y) || Covers(only2, x, y) {
        CoversConcat(only1, only2, x, y);
      }
    } else if mode == RGN_DIFF {
      raw := SubtractRegionRects(r1, r2);
    } else if mode == RGN_COPY {
      raw := r1;
    } else {
      var box := Extent(r1 + r2);
      raw := [box];
    }
  }

  class GdiTable {
    var objects: map<int, GdiObject>
    var nextHandle: int

    /** No region in the table lists a point twice. */
    ghost predicate Valid()
      reads this
    {
      forall h :: h in objects && objects[h].Region? ==> PairwiseDisjoint(objects[h].rects)
    }

    constructor ()
      ensures Valid() && objects == map[]
    {
      objects, nextHandle := map[], 1;
    }

    method CreateRectRgn(r: Rect) returns (h: int)
      requires Valid()
      modifies this
      ensures Valid()
      ensures h == old(nextHandle) && nextHandle == h + 1
      ensures objects == old(objects)[h := Region([r])]
    {
      h := nextHandle;
      nextHandle := nextHandle + 1;
      objects := objects[h := Region([r])];
    }

    /** The clip a paint DC starts from: the client rectangle minus what covers it. */
    method CreateClientClip(client: Rect, covering: seq<Rect>) returns (h: int)
      requires Valid()
      modifies this
      ensures Valid()
      ensures h == old(nextHandle) && nextHandle == h + 1
      ensures h in objects && objects[h].Region?
      ensures objects == old(objects)[h := objects[h]]
      ensures forall x, y :: Covers(objects[h].rects, x, y) <==> InRect(client, x, y) && !Covers(covering, x, y)
    {
      var rects := SubtractRegionRects([client], covering);
      forall x, y ensures Covers([client], x, y) <==> InRect(client, x, y) {
        CoversOne(client, x, y);
      }
      h := nextHandle;
      nextHandle := nextHandle + 1;
      objects := objects[h := Region(rects)];
    }

    /** `SelectClipRgn` keeps a copy of the region's contents under a handle of its own. */
    method CopyForClip(src: int) returns (h: Option<int>)
      requires Valid()
      modifies this
      ensures Valid()
      ensures h.Some? <==> src in old(objects) && old(objects)[src].Region?
      ensures h.Some? ==> h.value == old(nextHandle) && nextHandle == h.value + 1
      ensures h.Some? ==> objects == old(objects)[h.value := old(objects)[src]]
      ensures h.None? ==> objects == old(objects) && nextHandle == old(nextHandle)
    {
      h := None;
      if src in objects && objects[src].Region? {
        h := Some(nextHandle);
        nextHandle := nextHandle + 1;
        objects := objects[h.value := objects[src]];
      }
    }

    /** `dest` may be either source; a missing source changes nothing. */
    method CombineRgn(dest: int, src1: int, src2: int, mode: int) returns (code: int)
      requires Valid()
      modifies this
      ensures Valid() && nextHandle == old(nextHandle)
      ensures !(src1 in old(objects) && old(objects)[src1].Region? && src2 in old(objects)
                && old(objects)[src2].Region?) ==>
                code == 0 && objects == old(objects)
      ensures src1 in old(objects) && old(objects)[src1].Region? && src2 in old(objects)
                && old(objects)[src2].Region? ==>
                && dest in objects && objects[dest].Region? && objects == old(objects)[dest := objects[dest]]
                && Combined(old(objects)[src1].rects, old(objects)[src2].rects, mode, objects[dest].rects, code)
    {
      code := ERROR;
      if src1 in objects && objects[src1].Region? && src2 in objects && objects[src2].Region? {
        var r1, r2 := objects[src1].rects, objects[src2].rects;
        var raw := RawCombination(r1, r2, mode);
        var rects := raw;
        if mode != RGN_COPY {
          rects := Canonicalize(raw);
          CanonicalDisjoint(rects);
          CanonicalSize(rects);
        }
        objects := objects[dest := Region(rects)];
        code := RegionComplexity(objects[dest].rects);
      }
    }

    method EqualRgn(h1: int, h2: int) returns (result: int)
      ensures result == 0 || result == 1
      ensures result == 1 <==>
                && h1 in objects && objects[h1].Region? && h2 in objects && objects[h2].Region?
                && SameArea(objects[h1].rects, objects[h2].rects)
    {
      result := 0;
      if h1 in objects && objects[h1].Region? && h2 in objects && objects[h2].Region? {
        var c1 := Canonicalize(objects[h1].rects);
        var c2 := Canonicalize(objects[h2].rects);
        CanonicalUnique(c1, c2);
        if c1 == c2 {
          result := 1;
        }
      }
    }
  }

  /** The points each mode leaves in the destination, and what the return code tells. */
  ghost predicate Combined(r1: seq<Rect>, r2: seq<Rect>, mode: int, rects: seq<Rect>, code: int) {
    && (mode == 1 ==> forall x, y :: Covers(rects, x, y) <==> Covers(r1, x, y) && Covers(r2, x, y))
    && (mode == 2 ==> forall x, y :: Covers(rects, x, y) <==> Covers(r1, x, y) || Covers(r2, x, y))
    && (mode == 3 ==> forall x, y :: Covers(rects, x, y) <==> Covers(r1, x, y) != Covers(r2, x, y))
    && (mode == 4 ==> forall x, y :: Covers(rects, x, y) <==> Covers(r1, x, y) && !Covers(r2, x, y))
    && (mode == 5 ==> rects == r1 && code == if r1 == [] then 1 else if |r1| == 1 then 2 else 3)
    && (mode < 1 || mode > 5 ==> exists box :: IsExtent(r1 + r2, box) && SameArea(rects, [box]))
    && (mode != 5 ==>
          && Canonical(rects)
          && 1 <= code <= 3
          && (code == 1 <==> forall x, y :: !Covers(rects, x, y))
          && (code == 2 <==> exists r :: Nondegenerate(r) && SameArea(rects, [r])))
  }
}
