/** Half-open integer spans: sorting, merging and their normal form.  Region rows and the
heap's free list are both kept this way. */
module Spans {
  datatype Span = Span(lo: int, hi: int)

  predicate InRow(xs: seq<Span>, x: int) {
    exists i :: 0 <= i < |xs| && xs[i].lo <= x < xs[i].hi
  }

  /** Nonempty spans, left to right, with a gap between any two. */
  predicate RowForm(xs: seq<Span>) {
    && (forall i :: 0 <= i < |xs| ==> xs[i].lo < xs[i].hi)
    && (forall i, j :: 0 <= i < j < |xs| ==> xs[i].hi < xs[j].lo)
  }

  lemma {:induction false} RowUnique(a: seq<Span>, b: seq<Span>)
    requires RowForm(a) && RowForm(b)
    requires forall x :: InRow(a, x) <==> InRow(b, x)
    ensures a == b
  {
    if a == [] || b == [] {
      if a != [] { assert InRow(a, a[0].lo); }
      if b != [] { assert InRow(b, b[0].lo); }
    } else {
      FirstSpanAgrees(a, b);
      FirstSpanAgrees(b, a);
      forall x ensures InRow(a[1..], x) <==> InRow(b[1..], x) {
        RowTail(a, x);
        RowTail(b, x);
      }
      RowUnique(a[1..], b[1..]);
    }
  }

  lemma FirstSpanAgrees(a: seq<Span>, b: seq<Span>)
    requires RowForm(a) && RowForm(b) && a != [] && b != []
    requires forall x :: InRow(a, x) <==> InRow(b, x)
    ensures b[0].lo <= a[0].lo && (b[0].lo == a[0].lo ==> a[0].hi <= b[0].hi)
  {
    assert InRow(a, a[0].lo);
    assert InRow(b, a[0].lo);
    var edge := b[0].hi;
    assert a[0].lo <= edge < a[0].hi ==> InRow(a, edge);
  }

  lemma RowTail(a: seq<Span>, x: int)
    requires RowForm(a) && a != []
    ensures InRow(a[1..], x) <==> InRow(a, x) && a[0].hi < x
  {
    if InRow(a, x) && a[0].hi < x {
      var i :| 0 <= i < |a| && a[i].lo <= x < a[i].hi;
      assert a[1..][i - 1] == a[i];
    }
    if InRow(a[1..], x) {
      var i :| 0 <= i < |a[1..]| && a[1..][i].lo <= x < a[1..][i].hi;
      assert a[1..][i] == a[i + 1];
    }
  }

  predicate SortedByStart(xs: seq<Span>) {
    forall i, j :: 0 <= i < j < |xs| ==> Before(xs[i], xs[j])
  }

  /** The order of the tuples themselves: by start, then by end. */
  predicate Before(a: Span, b: Span) {
    a.lo < b.lo || (a.lo == b.lo && a.hi <= b.hi)
  }

  function InsertSpan(xs: seq<Span>, x: Span): (r: seq<Span>)
    requires SortedByStart(xs)
    ensures SortedByStart(r)
    ensures |r| == |xs| + 1
    ensures forall v :: v in r <==> v in xs || v == x
  {
    if xs == [] || Before(x, xs[0]) then [x] + xs
    else
      assert xs == [xs[0]] + xs[1..];
      var rest := InsertSpan(xs[1..], x);
      assert forall j :: 0 <= j < |rest| ==> rest[j] in rest;
      [xs[0]] + rest
  }

  method MergeSpans(spans: seq<Span>) returns (merged: seq<Span>)
    requires SortedByStart(spans)
    requires forall s :: s in spans ==> s.lo < s.hi
    ensures RowForm(merged)
    ensures forall x :: InRow(merged, x) <==> InRow(spans, x)
    ensures spans != [] ==> merged != []
  {
    merged := [];
    for k := 0 to |spans|
      invariant RowForm(merged)
      invariant merged == [] <==> k == 0
      invariant merged != [] && k < |spans| ==> merged[|merged| - 1].lo <= spans[k].lo
      invariant forall x :: InRow(merged, x) <==> InRow(spans[..k], x)
    {
      var last, s := |merged| - 1, spans[k];
      RowAppend(spans[..k], s);
      assert spans[..k + 1] == spans[..k] + [s];
      assert s in spans;
      if merged != [] && merged[last].hi >= s.lo {
        WidenLast(merged, s);
        merged := merged[last := Widened(merged[last], s)];
      } else {
        RowAppend(merged, s);
        merged := merged + [s];
      }
    }
    assert spans[..|spans|] == spans;
  }

  lemma RowAppend(xs: seq<Span>, s: Span)
    ensures forall x :: InRow(xs + [s], x) <==> InRow(xs, x) || s.lo <= x < s.hi
  {
    forall x ensures InRow(xs + [s], x) <==> InRow(xs, x) || s.lo <= x < s.hi {
      if InRow(xs, x) {
        var i :| 0 <= i < |xs| && xs[i].lo <= x < xs[i].hi;
        assert (xs + [s])[i] == xs[i];
      }
      if s.lo <= x < s.hi {
        assert (xs + [s])[|xs|] == s;
      }
    }
  }

  function Widened(last: Span, s: Span): Span {
    Span(last.lo, if s.hi > last.hi then s.hi else last.hi)
  }

  /** Extending the last span by one that starts inside or at its end adds exactly its points. */
  lemma WidenLast(xs: seq<Span>, s: Span)
    requires RowForm(xs) && xs != [] && s.lo < s.hi
    requires xs[|xs| - 1].lo <= s.lo <= xs[|xs| - 1].hi
    ensures var wide := xs[|xs| - 1 := Widened(xs[|xs| - 1], s)];
      && RowForm(wide)
      && forall x :: InRow(wide, x) <==> InRow(xs, x) || s.lo <= x < s.hi
  {
    var n := |xs| - 1;
    var w := Widened(xs[n], s);
    RowAppend(xs[..n], xs[n]);
    RowAppend(xs[..n], w);
    assert xs == xs[..n] + [xs[n]];
    assert xs[n := w] == xs[..n] + [w];
  }
}
