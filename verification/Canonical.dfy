/** The scan-line canonicaliser, loop for loop, proved to produce the unique
canonical list of the points its input covers. */
module Canonicaliser {
  import opened Region
  import opened Spans

  predicate Increasing(s: seq<int>) {
    forall i, j :: 0 <= i < j < |s| ==> s[i] < s[j]
  }

  /** Sorting and removing duplicates, one edge at a time. */
  function InsertEdge(s: seq<int>, e: int): (r: seq<int>)
    requires Increasing(s)
    ensures Increasing(r)
    ensures forall v :: v in r <==> v in s || v == e
  {
    if s == [] || e < s[0] then [e] + s
    else if e == s[0] then s
    else
      assert s == [s[0]] + s[1..];
      var rest := InsertEdge(s[1..], e);
      assert forall j :: 0 <= j < |rest| ==> rest[j] in rest;
      [s[0]] + rest
  }

  method DropDegenerate(rects: seq<Rect>) returns (clean: seq<Rect>)
    ensures forall r :: r in clean <==> r in rects && Nondegenerate(r)
    ensures SameArea(clean, rects)
  {
    clean := [];
    for k := 0 to |rects|
      invariant forall r :: r in clean <==> r in rects[..k] && Nondegenerate(r)
    {
      if Nondegenerate(rects[k]) {
        clean := clean + [rects[k]];
      }
    }
    forall x, y ensures Covers(clean, x, y) <==> Covers(rects, x, y) {
      CoversMember(clean, x, y);
      CoversMember(rects, x, y);
    }
  }

  lemma CoversMember(rects: seq<Rect>, x: int, y: int)
    ensures Covers(rects, x, y) <==> exists r :: r in rects && InRect(r, x, y)
  {
    if r :| r in rects && InRect(r, x, y) {
      var i :| 0 <= i < |rects| && rects[i] == r;
      assert InRect(rects[i], x, y);
    }
  }

  method HorizontalEdges(clean: seq<Rect>) returns (edges: seq<int>)
    ensures Increasing(edges)
    ensures forall r :: r in clean ==> r.top in edges && r.bottom in edges
    ensures forall e :: e in edges ==> exists r :: r in clean && (e == r.top || e == r.bottom)
  {
    edges := [];
    for k := 0 to |clean|
      invariant Increasing(edges)
      invariant forall r :: r in clean[..k] ==> r.top in edges && r.bottom in edges
      invariant forall e :: e in edges ==> exists r :: r in clean && (e == r.top || e == r.bottom)
    {
      edges := InsertEdge(InsertEdge(edges, clean[k].top), clean[k].bottom);
    }
  }

  /** The spans of all rectangles that cross the slab between two edges. */
  method SlabSpans(clean: seq<Rect>, y0: int, y1: int) returns (spans: seq<Span>)
    ensures SortedByStart(spans)
    ensures forall s :: s in spans <==>
                        exists r :: r in clean && r.top <= y0 && y1 <= r.bottom && s == Span(r.left, r.right)
  {
    spans := [];
    for k := 0 to |clean|
      invariant SortedByStart(spans)
      invariant forall s :: s in spans <==>
                            exists r :: r in clean[..k] && r.top <= y0 && y1 <= r.bottom && s == Span(r.left, r.right)
    {
      if clean[k].top <= y0 && y1 <= clean[k].bottom {
        spans := InsertSpan(spans, Span(clean[k].left, clean[k].right));
      }
      assert clean[..k + 1] == clean[..k] + [clean[k]];
    }
  }

  /** Between two neighbouring edges every rectangle covers all rows or none. */
  lemma SlabRow(clean: seq<Rect>, edges: seq<int>, k: nat, spans: seq<Span>, x: int, y: int)
    requires Increasing(edges) && k + 1 < |edges| && edges[k] <= y < edges[k + 1]
    requires forall r :: r in clean ==> r.top in edges && r.bottom in edges
    requires forall s :: s in spans <==>
                         exists r :: r in clean && r.top <= edges[k] && edges[k + 1] <= r.bottom
                             && s == Span(r.left, r.right)
    ensures InRow(spans, x) <==> Covers(clean, x, y)
  {
    CoversMember(clean, x, y);
    if InRow(spans, x) {
      var i :| 0 <= i < |spans| && spans[i].lo <= x < spans[i].hi;
      assert spans[i] in spans;
      var r :| r in clean && r.top <= edges[k] && edges[k + 1] <= r.bottom && spans[i] == Span(r.left, r.right);
      assert InRect(r, x, y);
    }
    if Covers(clean, x, y) {
      var r :| r in clean && InRect(r, x, y);
      var t :| 0 <= t < |edges| && edges[t] == r.top;
      var b :| 0 <= b < |edges| && edges[b] == r.bottom;
      assert t <= k < b;
      var s := Span(r.left, r.right);
      assert s in spans;
      var i :| 0 <= i < |spans| && spans[i] == s;
    }
  }

  lemma BandAppend(bands: seq<Band>, b: Band)
    ensures forall x, y :: InBands(bands + [b], x, y) <==> InBands(bands, x, y) || (b.y0 <= y < b.y1 && InRow(b.xs, x))
  {
    forall x, y ensures InBands(bands + [b], x, y) <==> InBands(bands, x, y) || (b.y0 <= y < b.y1 && InRow(b.xs, x)) {
      if InBands(bands, x, y) {
        var i :| 0 <= i < |bands| && bands[i].y0 <= y < bands[i].y1 && InRow(bands[i].xs, x);
        assert (bands + [b])[i] == bands[i];
      }
      if b.y0 <= y < b.y1 && InRow(b.xs, x) {
        assert (bands + [b])[|bands|] == b;
      }
    }
  }

  method BuildBands(clean: seq<Rect>, edges: seq<int>) returns (bands: seq<Band>)
    requires Increasing(edges) && edges != []
    requires forall r :: r in clean ==> Nondegenerate(r) && r.top in edges && r.bottom in edges
    ensures BandsOrdered(bands)
    ensures forall x, y :: InBands(bands, x, y) <==> Covers(clean, x, y)
  {
    bands := [];
    forall x, y ensures Covers(clean, x, y) ==> edges[0] <= y < edges[|edges| - 1] {
      CoversMember(clean, x, y);
    }
    for k := 0 to |edges| - 1
      invariant BandsOrdered(bands)
      invariant bands != [] ==> bands[|bands| - 1].y1 <= edges[k]
      invariant forall x, y :: InBands(bands, x, y) <==> Covers(clean, x, y) && y < edges[k]
    {
      var y0, y1 := edges[k], edges[k + 1];
      var spans := SlabSpans(clean, y0, y1);
      forall x, y | y0 <= y < y1 ensures InRow(spans, x) <==> Covers(clean, x, y) {
        SlabRow(clean, edges, k, spans, x, y);
      }
      if spans != [] {
        var merged := MergeSpans(spans);
        BandAppend(bands, Band(y0, y1, merged));
        bands := bands + [Band(y0, y1, merged)];
      } else {
        assert forall x :: !InRow(spans, x);
      }
    }
  }

  /** A band that continues the last one row for row can be absorbed into it. */
  lemma ExtendLast(bands: seq<Band>, b: Band)
    requires BandForm(bands) && bands != [] && b.y0 < b.y1
    requires bands[|bands| - 1].y1 == b.y0 && bands[|bands| - 1].xs == b.xs
    ensures var tall := bands[|bands| - 1 := Band(bands[|bands| - 1].y0, b.y1, b.xs)];
      && BandForm(tall)
      && forall x, y :: InBands(tall, x, y) <==> InBands(bands, x, y) || (b.y0 <= y < b.y1 && InRow(b.xs, x))
  {
    var n := |bands| - 1;
    var t := Band(bands[n].y0, b.y1, b.xs);
    BandAppend(bands[..n], bands[n]);
    BandAppend(bands[..n], t);
    assert bands == bands[..n] + [bands[n]];
    assert bands[n := t] == bands[..n] + [t];
  }

  lemma NewBand(bands: seq<Band>, b: Band)
    requires BandForm(bands) && b.y0 < b.y1 && b.xs != [] && RowForm(b.xs)
    requires bands != [] ==> var last := bands[|bands| - 1]; last.y1 <= b.y0 && (last.y1 < b.y0 || last.xs != b.xs)
    ensures BandForm(bands + [b])
  {
    forall i, j | 0 <= i < j < |bands + [b]| ensures (bands + [b])[i].y1 <= (bands + [b])[j].y0 {
      if j == |bands| && i < |bands| - 1 {
        assert bands[i].y1 <= bands[|bands| - 1].y0;
      }
    }
  }

  method CollapseOne(collapsed: seq<Band>, b: Band) returns (next: seq<Band>)
    requires BandForm(collapsed) && b.y0 < b.y1 && b.xs != [] && RowForm(b.xs)
    requires collapsed != [] ==> collapsed[|collapsed| - 1].y1 <= b.y0
    ensures BandForm(next) && next != [] && next[|next| - 1].y1 == b.y1
    ensures forall x, y :: InBands(next, x, y) <==> InBands(collapsed, x, y) || (b.y0 <= y < b.y1 && InRow(b.xs, x))
  {
    var last := |collapsed| - 1;
    if collapsed != [] && collapsed[last].y1 == b.y0 && collapsed[last].xs == b.xs {
      ExtendLast(collapsed, b);
      next := collapsed[last := Band(collapsed[last].y0, b.y1, b.xs)];
    } else {
      NewBand(collapsed, b);
      BandAppend(collapsed, b);
      next := collapsed + [b];
    }
  }

  method CollapseBands(bands: seq<Band>) returns (collapsed: seq<Band>)
    requires BandsOrdered(bands)
    ensures BandForm(collapsed)
    ensures SameBandArea(collapsed, bands)
  {
    collapsed := [];
    for k := 0 to |bands|
      invariant BandForm(collapsed)
      invariant collapsed == [] <==> k == 0
      invariant k > 0 ==> collapsed[|collapsed| - 1].y1 == bands[k - 1].y1
      invariant SameBandArea(collapsed, bands[..k])
    {
      BandAppend(bands[..k], bands[k]);
      assert bands[..k + 1] == bands[..k] + [bands[k]];
      collapsed := CollapseOne(collapsed, bands[k]);
    }
    assert bands[..|bands|] == bands;
  }

  method EmitRects(bands: seq<Band>) returns (out: seq<Rect>)
    ensures out == Flatten(bands)
  {
    out := [];
    for k := 0 to |bands|
      invariant out == Flatten(bands[..k])
    {
      var b := bands[k];
      for i := 0 to |b.xs|
        invariant out == Flatten(bands[..k]) + BandRects(b)[..i]
      {
        out := out + [Rect(b.xs[i].lo, b.y0, b.xs[i].hi, b.y1)];
      }
      assert bands[..k + 1][..k] == bands[..k];
    }
    assert bands[..|bands|] == bands;
  }

  /** The result is canonical and covers exactly the points of the input; by
      `CanonicalUnique` nothing else does, so the result depends on the points alone. */
  method Canonicalize(rects: seq<Rect>) returns (out: seq<Rect>)
    ensures Canonical(out)
    ensures SameArea(out, rects)
    ensures Canonical(rects) ==> out == rects
  {
    var clean := DropDegenerate(rects);
    if clean == [] {
      out := [];
      ghost var none: seq<Band> := [];
      assert Flatten(none) == [];
    } else {
      var edges := HorizontalEdges(clean);
      assert clean[0] in clean;
      var bands := BuildBands(clean, edges);
      var collapsed := CollapseBands(bands);
      out := EmitRects(collapsed);
      forall x, y ensures Covers(out, x, y) <==> Covers(rects, x, y) {
        FlattenArea(collapsed, x, y);
      }
    }
    if Canonical(rects) {
      CanonicalUnique(out, rects);
    }
  }
}
