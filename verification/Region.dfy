/** Point-set semantics of GDI regions and the scan-line band normal form.

A region is a list of half-open rectangles.  The normal form groups covered rows
into maximal bands that carry maximal x-spans; this module proves that the form is
unique, so two lists cover the same points exactly when their normal forms agree. */
module Region {
  import opened Spans

  /** Half-open on the right and bottom edge; degenerate when an edge pair is not increasing. */
  datatype Rect = Rect(left: int, top: int, right: int, bottom: int)

  datatype Band = Band(y0: int, y1: int, xs: seq<Span>)

  predicate Nondegenerate(r: Rect) {
    r.left < r.right && r.top < r.bottom
  }

  predicate InRect(r: Rect, x: int, y: int) {
    r.left <= x < r.right && r.top <= y < r.bottom
  }

  predicate Covers(rects: seq<Rect>, x: int, y: int) {
    exists i :: 0 <= i < |rects| && InRect(rects[i], x, y)
  }

  /** The two lists describe the same set of integer points. */
  ghost predicate SameArea(a: seq<Rect>, b: seq<Rect>) {
    forall x, y :: Covers(a, x, y) <==> Covers(b, x, y)
  }

  ghost predicate PairwiseDisjoint(rects: seq<Rect>) {
    forall i, j, x, y :: 0 <= i < j < |rects| && InRect(rects[i], x, y) ==> !InRect(rects[j], x, y)
  }

  predicate InBands(bands: seq<Band>, x: int, y: int) {
    exists i :: 0 <= i < |bands| && bands[i].y0 <= y < bands[i].y1 && InRow(bands[i].xs, x)
  }

  /** Nonempty bands, top to bottom, each carrying a nonempty normal row. */
  predicate BandsOrdered(bands: seq<Band>) {
    && (forall i :: 0 <= i < |bands| ==> bands[i].y0 < bands[i].y1 && bands[i].xs != [] && RowForm(bands[i].xs))
    && (forall i, j :: 0 <= i < j < |bands| ==> bands[i].y1 <= bands[j].y0)
  }

  /** No two abutting bands could be written as one. */
  predicate BandsMaximal(bands: seq<Band>) {
    forall i :: 0 <= i < |bands| - 1 ==> bands[i].y1 < bands[i + 1].y0 || bands[i].xs != bands[i + 1].xs
  }

  predicate BandForm(bands: seq<Band>) {
    BandsOrdered(bands) && BandsMaximal(bands)
  }

  function BandRects(b: Band): (rects: seq<Rect>) {
    seq(|b.xs|, i requires 0 <= i < |b.xs| => Rect(b.xs[i].lo, b.y0, b.xs[i].hi, b.y1))
  }

  function Flatten(bands: seq<Band>): (rects: seq<Rect>) {
    if bands == [] then [] else Flatten(bands[..|bands| - 1]) + BandRects(bands[|bands| - 1])
  }

  ghost predicate Canonical(rects: seq<Rect>) {
    exists bands :: BandForm(bands) && rects == Flatten(bands)
  }

  // ----- uniqueness of bands

  ghost predicate SameBandArea(a: seq<Band>, b: seq<Band>) {
    forall x, y :: InBands(a, x, y) <==> InBands(b, x, y)
  }

  /** In an ordered list, a band alone decides the rows it spans. */
  lemma BandRow(a: seq<Band>, i: nat, x: int, y: int)
    requires BandsOrdered(a) && i < |a| && a[i].y0 <= y < a[i].y1
    ensures InBands(a, x, y) <==> InRow(a[i].xs, x)
  {
    if InBands(a, x, y) {
      var j :| 0 <= j < |a| && a[j].y0 <= y < a[j].y1 && InRow(a[j].xs, x);
      assert i == j;
    }
  }

  lemma BandCorner(a: seq<Band>, i: nat)
    requires BandsOrdered(a) && i < |a|
    ensures InBands(a, a[i].xs[0].lo, a[i].y0)
  {
    assert InRow(a[i].xs, a[i].xs[0].lo);
  }

  lemma FirstBandTop(a: seq<Band>, b: seq<Band>)
    requires BandsOrdered(a) && BandsOrdered(b) && a != [] && b != []
    requires SameBandArea(a, b)
    ensures b[0].y0 <= a[0].y0
  {
    BandCorner(a, 0);
    assert InBands(b, a[0].xs[0].lo, a[0].y0);
  }

  /** Rows covered alike by two bands carry the same spans. */
  lemma BandRowsAgree(a: seq<Band>, i: nat, b: seq<Band>, j: nat, y: int)
    requires BandsOrdered(a) && BandsOrdered(b) && i < |a| && j < |b|
    requires SameBandArea(a, b)
    requires a[i].y0 <= y < a[i].y1 && b[j].y0 <= y < b[j].y1
    ensures a[i].xs == b[j].xs
  {
    forall x ensures InRow(a[i].xs, x) <==> InRow(b[j].xs, x) {
      BandRow(a, i, x, y);
      BandRow(b, j, x, y);
    }
    RowUnique(a[i].xs, b[j].xs);
  }

  lemma FirstBandBottom(a: seq<Band>, b: seq<Band>)
    requires BandForm(a) && BandForm(b) && a != [] && b != []
    requires SameBandArea(a, b)
    requires a[0].y0 == b[0].y0 && a[0].xs == b[0].xs
    ensures b[0].y1 <= a[0].y1
  {
    if a[0].y1 < b[0].y1 {
      var y, x := a[0].y1, b[0].xs[0].lo;
      assert InRow(b[0].xs, x);
      assert InBands(b, x, y);
      assert InBands(a, x, y);
      var i :| 0 <= i < |a| && a[i].y0 <= y < a[i].y1 && InRow(a[i].xs, x);
      assert i != 0;
      assert a[1].y0 <= y;
      BandRowsAgree(a, 1, b, 0, y);
      assert false;
    }
  }

  lemma BandTail(a: seq<Band>, x: int, y: int)
    requires BandsOrdered(a) && a != []
    ensures InBands(a[1..], x, y) <==> InBands(a, x, y) && a[0].y1 <= y
  {
    if InBands(a, x, y) && a[0].y1 <= y {
      var i :| 0 <= i < |a| && a[i].y0 <= y < a[i].y1 && InRow(a[i].xs, x);
      assert a[1..][i - 1] == a[i];
    }
    if InBands(a[1..], x, y) {
      var i :| 0 <= i < |a[1..]| && a[1..][i].y0 <= y < a[1..][i].y1 && InRow(a[1..][i].xs, x);
      assert a[1..][i] == a[i + 1];
    }
  }

  lemma {:induction false} BandsUnique(a: seq<Band>, b: seq<Band>)
    requires BandForm(a) && BandForm(b)
    requires SameBandArea(a, b)
    ensures a == b
  {
    if a == [] || b == [] {
      if a != [] { BandCorner(a, 0); }
      if b != [] { BandCorner(b, 0); }
    } else {
      FirstBandTop(a, b);
      FirstBandTop(b, a);
      BandRowsAgree(a, 0, b, 0, a[0].y0);
      FirstBandBottom(a, b);
      FirstBandBottom(b, a);
      forall x, y ensures InBands(a[1..], x, y) <==> InBands(b[1..], x, y) {
        BandTail(a, x, y);
        BandTail(b, x, y);
      }
      BandsUnique(a[1..], b[1..]);
    }
  }

  // ----- from bands to rectangles

  lemma CoversConcat(a: seq<Rect>, b: seq<Rect>, x: int, y: int)
    ensures Covers(a + b, x, y) <==> Covers(a, x, y) || Covers(b, x, y)
  {
    if Covers(a, x, y) {
      var i :| 0 <= i < |a| && InRect(a[i], x, y);
      assert (a + b)[i] == a[i];
    }
    if Covers(b, x, y) {
      var i :| 0 <= i < |b| && InRect(b[i], x, y);
      assert (a + b)[|a| + i] == b[i];
    }
  }

  lemma BandRectsArea(b: Band, x: int, y: int)
    ensures Covers(BandRects(b), x, y) <==> b.y0 <= y < b.y1 && InRow(b.xs, x)
  {
    var rects := BandRects(b);
    if Covers(rects, x, y) {
      var i :| 0 <= i < |rects| && InRect(rects[i], x, y);
      assert b.xs[i].lo <= x < b.xs[i].hi;
    }
    if b.y0 <= y < b.y1 && InRow(b.xs, x) {
      var i :| 0 <= i < |b.xs| && b.xs[i].lo <= x < b.xs[i].hi;
      assert InRect(rects[i], x, y);
    }
  }

  lemma {:induction false} FlattenArea(bands: seq<Band>, x: int, y: int)
    ensures Covers(Flatten(bands), x, y) <==> InBands(bands, x, y)
  {
    if bands != [] {
      var n := |bands| - 1;
      FlattenArea(bands[..n], x, y);
      CoversConcat(Flatten(bands[..n]), BandRects(bands[n]), x, y);
      BandRectsArea(bands[n], x, y);
      assert forall i :: 0 <= i < n ==> bands[..n][i] == bands[i];
    }
  }

  /** A point set has exactly one canonical list. */
  lemma CanonicalUnique(a: seq<Rect>, b: seq<Rect>)
    requires Canonical(a) && Canonical(b)
    ensures SameArea(a, b) <==> a == b
  {
    if SameArea(a, b) {
      var ba :| BandForm(ba) && a == Flatten(ba);
      var bb :| BandForm(bb) && b == Flatten(bb);
      forall x, y ensures InBands(ba, x, y) <==> InBands(bb, x, y) {
        FlattenArea(ba, x, y);
        FlattenArea(bb, x, y);
      }
      BandsUnique(ba, bb);
    }
  }

  lemma {:induction false} FlattenDisjoint(bands: seq<Band>)
    requires BandsOrdered(bands)
    ensures PairwiseDisjoint(Flatten(bands))
  {
    if bands != [] {
      var n := |bands| - 1;
      var a, b := Flatten(bands[..n]), BandRects(bands[n]);
      FlattenDisjoint(bands[..n]);
      forall i, j, x, y | 0 <= i < j < |a + b| && InRect((a + b)[i], x, y)
        ensures !InRect((a + b)[j], x, y)
      {
        if i < |a| && |a| <= j {
          assert Covers(a, x, y);
          FlattenArea(bands[..n], x, y);
        }
      }
    }
  }

  lemma CanonicalDisjoint(rects: seq<Rect>)
    requires Canonical(rects)
    ensures PairwiseDisjoint(rects)
  {
    var bands :| BandForm(bands) && rects == Flatten(bands);
    FlattenDisjoint(bands);
  }

  /** The canonical list is empty exactly for the empty set, and a single rectangle
      exactly for the points of one nondegenerate rectangle. */
  lemma CanonicalSize(rects: seq<Rect>)
    requires Canonical(rects)
    ensures rects == [] <==> forall x, y :: !Covers(rects, x, y)
    ensures |rects| == 1 <==> exists r :: Nondegenerate(r) && SameArea(rects, [r])
  {
    var none: seq<Band> := [];
    assert Flatten(none) == [];
    assert Canonical([]);
    CanonicalUnique(rects, []);
    if forall x, y :: !Covers(rects, x, y) {
      assert SameArea(rects, []);
    }
    if |rects| == 1 {
      SingleIsNondegenerate(rects);
      assert rects == [rects[0]];
      assert SameArea(rects, [rects[0]]);
    }
    if r :| Nondegenerate(r) && SameArea(rects, [r]) {
      SingleIsCanonical(r);
      CanonicalUnique(rects, [r]);
    }
  }

  lemma SingleIsCanonical(r: Rect)
    requires Nondegenerate(r)
    ensures Canonical([r])
  {
    var b := [Band(r.top, r.bottom, [Span(r.left, r.right)])];
    assert b[..0] == [];
    assert Flatten(b[..0]) == [];
    assert BandRects(b[0]) == [r];
    assert Flatten(b) == [r];
  }

  lemma SingleIsNondegenerate(rects: seq<Rect>)
    requires Canonical(rects) && |rects| == 1
    ensures Nondegenerate(rects[0])
  {
    var bands :| BandForm(bands) && rects == Flatten(bands);
    var last := bands[|bands| - 1];
    assert |BandRects(last)| == |last.xs|;
    assert rects[0] == BandRects(last)[0];
  }
}
