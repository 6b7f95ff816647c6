/** Guessing a window's client hole from the clip rectangles of its border. */
module FrameInference {
  import opened Arith
  import opened Common
  import opened Color
  import opened Spans
  import opened Region
  import RegionOps
  import opened Raster

  const MAX_PIXELS := 4_000_000

  datatype Metrics = Metrics(left: int, top: int, right: int, bottom: int)

  // ----- the longest empty run of a row

  predicate EmptyRun(row: seq<bool>, s: Span) {
    0 <= s.lo < s.hi <= |row| && forall x :: s.lo <= x < s.hi ==> !row[x]
  }

  /** The first of the longest runs of empty cells; none when every cell is occupied. */
  ghost predicate IsLongest(row: seq<bool>, best: Option<Span>) {
    match best
    case None => forall x :: 0 <= x < |row| ==> row[x]
    case Some(s) =>
      && EmptyRun(row, s)
      && forall r :: EmptyRun(row, r) ==> r.hi - r.lo < s.hi - s.lo || (r.hi - r.lo == s.hi - s.lo && s.lo <= r.lo)
  }

  lemma LongestUnique(row: seq<bool>, a: Option<Span>, b: Option<Span>)
    requires IsLongest(row, a) && IsLongest(row, b)
    ensures a == b
  {
    assert forall r :: EmptyRun(row, r) ==> !row[r.lo];
  }

  /** Longest among the runs that start before `x`, where no run crosses `x`. */
  ghost predicate LongestBefore(row: seq<bool>, best: Option<Span>, x: nat)
    requires x <= |row|
  {
    && (best.None? ==> forall i :: 0 <= i < x ==> row[i])
    && (best.Some? ==>
          && EmptyRun(row, best.value) && best.value.hi <= x
          && forall r :: EmptyRun(row, r) && r.lo < x ==>
               r.hi - r.lo < best.value.hi - best.value.lo
               || (r.hi - r.lo == best.value.hi - best.value.lo && best.value.lo <= r.lo))
  }

  method LongestEmptyInterval(row: seq<bool>) returns (best: Option<Span>)
    ensures IsLongest(row, best)
  {
    assert forall r :: EmptyRun(row, r) ==> !row[r.lo];
    best := None;
    var bestWidth := 0;
    var x := 0;
    while x < |row|
      invariant 0 <= x <= |row|
      invariant x == 0 || x == |row| || row[x] || row[x - 1]
      invariant LongestBefore(row, best, x)
      invariant bestWidth == if best.None? then 0 else best.value.hi - best.value.lo
    {
      if row[x] {
        x := x + 1;
        continue;
      }
      var start := x;
      while x < |row| && !row[x]
        invariant start <= x <= |row|
        invariant forall i :: start <= i < x ==> !row[i]
        decreases |row| - x
      {
        x := x + 1;
      }
      assert x < |row| ==> row[x];
      assert forall r :: EmptyRun(row, r) && start <= r.lo < x ==> r.hi <= x;
      var width := x - start;
      if width > bestWidth {
        bestWidth := width;
        best := Some(Span(start, x));
      }
    }
  }

  // ----- groups of equal rows

  /** Rows `top..bottom`, all with the run `left..right`, and not one row more on either side. */
  datatype Group = Group(left: int, right: int, top: int, bottom: int)

  type Runs = seq<Option<Span>>

  ghost predicate IsGroup(runs: Runs, g: Group) {
    && 0 <= g.top < g.bottom <= |runs|
    && (forall y :: g.top <= y < g.bottom ==> runs[y] == Some(Span(g.left, g.right)))
    && (g.top > 0 ==> runs[g.top - 1] != Some(Span(g.left, g.right)))
    && (g.bottom < |runs| ==> runs[g.bottom] != Some(Span(g.left, g.right)))
  }

  /** The groups of the rows so far are the finished ones and the one still growing. */
  ghost predicate Listed(runs: Runs, groups: seq<Group>, current: Option<Group>) {
    forall g :: IsGroup(runs, g) <==> g in groups || current == Some(g)
  }

  ghost predicate TopDown(groups: seq<Group>) {
    forall i, j :: 0 <= i < j < |groups| ==> groups[i].top < groups[j].top
  }

  /** `groups` are the finished groups, top to bottom, and `current` the one that reaches the
      last row, if that row has a run. */
  ghost predicate Grouped(runs: Runs, groups: seq<Group>, current: Option<Group>) {
    && Listed(runs, groups, current)
    && TopDown(Close(groups, current))
    && (forall g :: g in groups ==> g.top < |runs|)
    && (current.None? <==> |runs| == 0 || runs[|runs| - 1].None?)
    && (current.Some? ==> current.value.bottom == |runs| && current.value.top < |runs|)
    && (forall g :: g in groups ==> g.bottom < |runs| || current.None?)
  }

  /** Every group of the rows, top to bottom. */
  ghost predicate AllListed(runs: Runs, groups: seq<Group>) {
    Listed(runs, groups, None) && TopDown(groups)
  }

  function Close(groups: seq<Group>, current: Option<Group>): seq<Group> {
    if current.Some? then groups + [current.value] else groups
  }

  /** How the groups of the rows so far become the groups of one row more. */
  ghost predicate GrowsTo(runs: Runs, run: Option<Span>, g: Group) {
    || (g.bottom < |runs| && IsGroup(runs, g))
    || (g.bottom == |runs| && IsGroup(runs, g) && run != Some(Span(g.left, g.right)))
    || (g.bottom == |runs| + 1 && run == Some(Span(g.left, g.right))
        && (if g.top == |runs| then |runs| == 0 || runs[|runs| - 1] != run
            else IsGroup(runs, Group(g.left, g.right, g.top, |runs|))))
  }

  lemma GroupAfterRow(runs: Runs, run: Option<Span>, g: Group)
    ensures IsGroup(runs + [run], g) <==> GrowsTo(runs, run, g)
  {
    var more := runs + [run];
    assert forall y :: 0 <= y < |runs| ==> more[y] == runs[y];
    assert more[|runs|] == run;
    if IsGroup(more, g) && g.bottom == |runs| + 1 {
      assert more[g.bottom - 1] == Some(Span(g.left, g.right));
      if g.top < |runs| {
        assert IsGroup(runs, Group(g.left, g.right, g.top, |runs|));
      }
    }
  }

  lemma GroupsAfterRow(runs: Runs, run: Option<Span>)
    ensures forall g :: IsGroup(runs + [run], g) <==> GrowsTo(runs, run, g)
  {
    forall g ensures IsGroup(runs + [run], g) <==> GrowsTo(runs, run, g) {
      GroupAfterRow(runs, run, g);
    }
  }

  lemma ExtendGroup(runs: Runs, groups: seq<Group>, current: Group, run: Option<Span>)
    requires Grouped(runs, groups, Some(current)) && run == Some(Span(current.left, current.right))
    ensures Grouped(runs + [run], groups, Some(current.(bottom := |runs| + 1)))
  {
    GroupsAfterRow(runs, run);
    assert IsGroup(runs, current);
    var before, after := Close(groups, Some(current)), Close(groups, Some(current.(bottom := |runs| + 1)));
    assert forall i :: 0 <= i < |after| ==> after[i].top == before[i].top;
  }

  lemma SwitchListed(runs: Runs, groups: seq<Group>, current: Option<Group>, run: Option<Span>)
    requires Grouped(runs, groups, current)
    requires run.Some? && current.Some? ==> run != Some(Span(current.value.left, current.value.right))
    ensures Listed(runs + [run], Close(groups, current),
                   if run.Some? then Some(Group(run.value.lo, run.value.hi, |runs|, |runs| + 1)) else None)
  {
    GroupsAfterRow(runs, run);
    if current.Some? {
      assert IsGroup(runs, current.value);
    }
  }

  lemma SwitchGroup(runs: Runs, groups: seq<Group>, current: Option<Group>, run: Option<Span>)
    requires Grouped(runs, groups, current)
    requires run.Some? && (current.Some? ==> run != Some(Span(current.value.left, current.value.right)))
    ensures Grouped(runs + [run], Close(groups, current), Some(Group(run.value.lo, run.value.hi, |runs|, |runs| + 1)))
  {
    SwitchListed(runs, groups, current, run);
    var closed := Close(groups, current);
    assert forall i :: 0 <= i < |closed| ==> closed[i] in closed && closed[i].top < |runs|;
  }

  lemma EndGroup(runs: Runs, groups: seq<Group>, current: Option<Group>)
    requires Grouped(runs, groups, current)
    ensures Grouped(runs + [None], Close(groups, current), None)
  {
    SwitchListed(runs, groups, current, None);
  }

  // ----- the border's clip rectangles

  function RowOf(rects: seq<Rect>, width: nat, y: int): seq<bool> {
    seq(width, x => Covers(rects, x, y))
  }

  /** A run that leaves occupied cells on both sides. */
  function Inner(run: Option<Span>, width: int): Option<Span> {
    if run.Some? && run.value.lo > 0 && run.value.hi < width then run else None
  }

  ghost predicate IsRowRun(rects: seq<Rect>, width: nat, y: int, run: Option<Span>) {
    exists longest :: IsLongest(RowOf(rects, width, y), longest) && run == Inner(longest, width)
  }

  ghost predicate AreRuns(rects: seq<Rect>, width: nat, runs: Runs) {
    forall y :: 0 <= y < |runs| ==> IsRowRun(rects, width, y, runs[y])
  }

  predicate Qualifies(g: Group, width: int, height: int) {
    g.top > 0 && g.bottom < height && g.left > 0 && g.right < width && g.bottom > g.top
  }

  function Area(g: Group): int { (g.right - g.left) * (g.bottom - g.top) }

  /** The qualifying group of largest area, the lowest of them on screen. */
  ghost predicate IsBest(runs: Runs, width: int, height: int, g: Group) {
    && IsGroup(runs, g) && Qualifies(g, width, height)
    && forall other :: IsGroup(runs, other) && Qualifies(other, width, height) ==>
         Area(other) < Area(g) || (Area(other) == Area(g) && other.top <= g.top)
  }

  function Clamp(v: int, lo: int, hi: int): int
    requires lo <= hi
  {
    if v < lo then lo else if v > hi then hi else v
  }

  ghost predicate Marked(was: seq<bool>, now: seq<bool>, w: nat, h: nat, area: Rect, x: int, y: int) {
    && |was| == |now| == w * h
    && forall px, py | InBitmap(w, h, px, py) ::
         now[Idx(w, h, px, py)] == (was[Idx(w, h, px, py)] || (InRect(area, px, py) && (py < y || (py == y && px < x))))
  }

  method MarkRect(occupied: array<bool>, w: nat, h: nat, area: Rect)
    requires occupied.Length == w * h
    requires 0 <= area.left && area.right <= w && 0 <= area.top && area.bottom <= h
    modifies occupied
    ensures forall x, y | InBitmap(w, h, x, y) ::
              occupied[Idx(w, h, x, y)] == (old(occupied[..])[Idx(w, h, x, y)] || InRect(area, x, y))
  {
    var y := area.top;
    while y < area.bottom
      invariant area.top <= y
      invariant Marked(old(occupied[..]), occupied[..], w, h, area, area.left, y)
    {
      var x := area.left;
      while x < area.right
        invariant area.left <= x
        invariant Marked(old(occupied[..]), occupied[..], w, h, area, x, y)
      {
        var idx := Idx(w, h, x, y);
        forall px, py | InBitmap(w, h, px, py) && Idx(w, h, px, py) == idx ensures px == x && py == y {
          IdxInjective(w, h, px, py, x, y);
        }
        occupied[idx] := true;
        assert Marked(old(occupied[..]), occupied[..], w, h, area, x + 1, y);
        x := x + 1;
      }
      y := y + 1;
    }
  }

  ghost predicate MeetsWindow(rects: seq<Rect>, width: nat, height: nat) {
    exists x, y :: InBitmap(width, height, x, y) && Covers(rects, x, y)
  }

  method Occupancy(width: nat, height: nat, rects: seq<Rect>) returns (occupied: array<bool>, hasAny: bool)
    ensures fresh(occupied) && occupied.Length == width * height
    ensures forall x, y | InBitmap(width, height, x, y) :: occupied[Idx(width, height, x, y)] == Covers(rects, x, y)
    ensures hasAny <==> MeetsWindow(rects, width, height)
  {
    occupied := new bool[width * height](_ => false);
    hasAny := false;
    for k := 0 to |rects|
      invariant forall x, y | InBitmap(width, height, x, y) ::
          occupied[Idx(width, height, x, y)] == Covers(rects[..k], x, y)
      invariant hasAny <==> exists x, y :: InBitmap(width, height, x, y) && Covers(rects[..k], x, y)
    {
      var r := rects[k];
      var c := Rect(Clamp(r.left, 0, width), Clamp(r.top, 0, height), Clamp(r.right, 0, width),
          Clamp(r.bottom, 0, height));
      forall x, y ensures Covers(rects[..k + 1], x, y) <==> Covers(rects[..k], x, y) || InRect(r, x, y) {
        RegionOps.CoversLast(rects, k, x, y);
      }
      assert forall x, y :: InBitmap(width, height, x, y) ==> (InRect(c, x, y) <==> InRect(r, x, y));
      if Nondegenerate(c) {
        assert InBitmap(width, height, c.left, c.top) && Covers(rects[..k + 1], c.left, c.top);
        hasAny := true;
        MarkRect(occupied, width, height, c);
      }
    }
    assert rects[..|rects|] == rects;
  }

  method BestGroup(ghost runs: Runs, groups: seq<Group>, width: int, height: int) returns (best: Option<Group>)
    requires AllListed(runs, groups)
    ensures best.Some? ==> IsBest(runs, width, height, best.value)
    ensures best.None? ==> forall g :: IsGroup(runs, g) ==> !Qualifies(g, width, height)
  {
    best := None;
    for k := 0 to |groups|
      invariant best.None? ==> forall i :: 0 <= i < k ==> !Qualifies(groups[i], width, height)
      invariant best.Some? ==>
                  && best.value in groups[..k] && Qualifies(best.value, width, height)
                  && forall i :: 0 <= i < k && Qualifies(groups[i], width, height) ==>
                       Area(groups[i]) < Area(best.value)
                       || (Area(groups[i]) == Area(best.value) && groups[i].top <= best.value.top)
    {
      if Qualifies(groups[k], width, height) && (best.None? || Area(groups[k]) >= Area(best.value)) {
        best := Some(groups[k]);
      }
    }
    if best.Some? {
      assert best.value in groups;
    }
  }

  /** The inferred insets leave an inner rectangle strictly inside the window. */
  ghost predicate Inside(m: Metrics, width: int, height: int) {
    m.left > 0 && m.top > 0 && m.right > 0 && m.bottom > 0 && m.left + m.right < width && m.top + m.bottom < height
  }

  ghost predicate HasRun(rects: seq<Rect>, width: nat, y: int, s: Span) {
    IsLongest(RowOf(rects, width, y), Some(s))
  }

  function Columns(m: Metrics, width: int): Span { Span(m.left, width - m.right) }

  /** The columns of the inner rectangle are the longest empty run of each of its rows. */
  ghost predicate IsHole(rects: seq<Rect>, width: nat, height: nat, m: Metrics) {
    var s := Columns(m, width);
    forall y :: m.top <= y < height - m.bottom ==> HasRun(rects, width, y, s)
  }

  /** A hole that the rows just above and just below it do not continue. */
  ghost predicate IsMaximalHole(rects: seq<Rect>, width: nat, height: nat, m: Metrics) {
    && Inside(m, width, height) && IsHole(rects, width, height, m)
    && !HasRun(rects, width, m.top - 1, Columns(m, width))
    && !HasRun(rects, width, height - m.bottom, Columns(m, width))
  }

  /** No clip rectangle reaches into a hole. */
  lemma HoleIsFree(rects: seq<Rect>, width: nat, height: nat, m: Metrics, x: int, y: int)
    requires IsHole(rects, width, height, m) && m.left <= x < width - m.right && m.top <= y < height - m.bottom
    ensures !Covers(rects, x, y)
  {
    assert HasRun(rects, width, y, Columns(m, width));
    assert !RowOf(rects, width, y)[x];
  }

  function MetricsOf(g: Group, width: int, height: int): Metrics {
    Metrics(g.left, g.top, width - g.right, height - g.bottom)
  }

  function GroupOf(m: Metrics, width: int, height: int): Group {
    Group(m.left, width - m.right, m.top, height - m.bottom)
  }

  lemma RunIs(rects: seq<Rect>, width: nat, y: int, run: Option<Span>, s: Span)
    requires IsRowRun(rects, width, y, run) && 0 < s.lo && s.hi < width
    ensures run == Some(s) <==> HasRun(rects, width, y, s)
    ensures HasRun(rects, width, y, s) ==> s.lo < s.hi
  {
    var longest :| IsLongest(RowOf(rects, width, y), longest) && run == Inner(longest, width);
    if HasRun(rects, width, y, s) {
      LongestUnique(RowOf(rects, width, y), longest, Some(s));
    }
  }

  ghost predicate RunsAt(rects: seq<Rect>, width: nat, runs: Runs, s: Span) {
    forall y :: 0 <= y < |runs| ==>
      (runs[y] == Some(s) <==> HasRun(rects, width, y, s)) && (runs[y] == Some(s) ==> s.lo < s.hi)
  }

  lemma RunsAre(rects: seq<Rect>, width: nat, runs: Runs, s: Span)
    requires AreRuns(rects, width, runs) && 0 < s.lo && s.hi < width
    ensures RunsAt(rects, width, runs, s)
  {
    forall y | 0 <= y < |runs|
      ensures (runs[y] == Some(s) <==> HasRun(rects, width, y, s)) && (runs[y] == Some(s) ==> s.lo < s.hi)
    {
      assert IsRowRun(rects, width, y, runs[y]);
      RunIs(rects, width, y, runs[y], s);
    }
  }

  lemma GroupToHole(rects: seq<Rect>, width: nat, runs: Runs, g: Group, m: Metrics)
    requires m == MetricsOf(g, width, |runs|) && RunsAt(rects, width, runs, Columns(m, width))
    requires IsGroup(runs, g) && Qualifies(g, width, |runs|)
    ensures IsMaximalHole(rects, width, |runs|, m)
  {
    var s := Columns(m, width);
    assert s == Span(g.left, g.right);
    assert runs[g.top] == Some(s);
    forall y | g.top <= y < g.bottom ensures HasRun(rects, width, y, s) {
      assert runs[y] == Some(s);
    }
    assert runs[g.top - 1] != Some(s) && runs[g.bottom] != Some(s);
  }

  lemma HoleToGroup(rects: seq<Rect>, width: nat, runs: Runs, g: Group, m: Metrics)
    requires m == MetricsOf(g, width, |runs|) && RunsAt(rects, width, runs, Columns(m, width))
    requires IsMaximalHole(rects, width, |runs|, m)
    ensures IsGroup(runs, g) && Qualifies(g, width, |runs|)
  {
    var s := Columns(m, width);
    assert s == Span(g.left, g.right);
    forall y | g.top <= y < g.bottom ensures runs[y] == Some(s) {
      assert HasRun(rects, width, y, s);
    }
    assert !HasRun(rects, width, g.top - 1, s) && !HasRun(rects, width, g.bottom, s);
  }

  /** The qualifying groups of rows are exactly the maximal holes strictly inside the window. */
  lemma GroupIsHole(rects: seq<Rect>, width: nat, height: nat, runs: Runs, g: Group)
    requires AreRuns(rects, width, runs) && |runs| == height
    ensures IsGroup(runs, g) && Qualifies(g, width, height) <==>
            IsMaximalHole(rects, width, height, MetricsOf(g, width, height))
  {
    var m := MetricsOf(g, width, height);
    if 0 < g.left && g.right < width {
      RunsAre(rects, width, runs, Columns(m, width));
      if IsGroup(runs, g) && Qualifies(g, width, height) {
        GroupToHole(rects, width, runs, g, m);
      }
      if IsMaximalHole(rects, width, height, m) {
        HoleToGroup(rects, width, runs, g, m);
      }
    }
  }

  method RowRun(occupied: array<bool>, width: nat, height: nat, ghost rects: seq<Rect>, y: nat)
      returns (run: Option<Span>)
    requires occupied.Length == width * height && y < height && width > 0
    requires forall x, y | InBitmap(width, height, x, y) :: occupied[Idx(width, height, x, y)] == Covers(rects, x, y)
    ensures IsRowRun(rects, width, y, run)
  {
    assert Idx(width, height, width - 1, y) == y * width + width - 1;
    var row := occupied[y * width..y * width + width];
    forall x | 0 <= x < width ensures row[x] == RowOf(rects, width, y)[x] {
      assert InBitmap(width, height, x, y);
      assert row[x] == occupied[Idx(width, height, x, y)];
    }
    assert row == RowOf(rects, width, y);
    var longest := LongestEmptyInterval(row);
    run := Inner(longest, width);
  }

  method GroupRow(groups: seq<Group>, current: Option<Group>, run: Option<Span>, y: nat, ghost runs: Runs)
    returns (groups': seq<Group>, current': Option<Group>)
    requires Grouped(runs, groups, current) && |runs| == y
    ensures Grouped(runs + [run], groups', current')
  {
    if current.Some? && run.Some? && run.value == Span(current.value.left, current.value.right) {
      ExtendGroup(runs, groups, current.value, run);
      groups', current' := groups, Some(current.value.(bottom := y + 1));
    } else if run.Some? {
      SwitchGroup(runs, groups, current, run);
      groups', current' := Close(groups, current), Some(Group(run.value.lo, run.value.hi, y, y + 1));
    } else {
      EndGroup(runs, groups, current);
      groups', current' := Close(groups, current), None;
    }
  }

  lemma NextRun(rects: seq<Rect>, width: nat, runs: Runs, run: Option<Span>)
    requires AreRuns(rects, width, runs) && IsRowRun(rects, width, |runs|, run)
    ensures AreRuns(rects, width, runs + [run])
  {
  }

  lemma ClosedListed(runs: Runs, groups: seq<Group>, current: Option<Group>)
    requires Grouped(runs, groups, current)
    ensures AllListed(runs, Close(groups, current))
  {
  }

  method ScanRows(occupied: array<bool>, width: nat, height: nat, ghost rects: seq<Rect>)
      returns (groups: seq<Group>, ghost runs: Runs)
    requires occupied.Length == width * height && width > 0
    requires forall x, y | InBitmap(width, height, x, y) :: occupied[Idx(width, height, x, y)] == Covers(rects, x, y)
    ensures AreRuns(rects, width, runs) && |runs| == height && AllListed(runs, groups)
  {
    groups, runs := [], [];
    var current: Option<Group> := None;
    for y := 0 to height
      invariant |runs| == y && AreRuns(rects, width, runs) && Grouped(runs, groups, current)
    {
      var run := RowRun(occupied, width, height, rects, y);
      groups, current := GroupRow(groups, current, run, y, runs);
      NextRun(rects, width, runs, run);
      runs := runs + [run];
    }
    ClosedListed(runs, groups, current);
    groups := Close(groups, current);
  }

  /** Smaller in area, or as large and not lower on screen. */
  predicate NoLarger(o: Metrics, m: Metrics, width: int, height: int) {
    var (other, mine) := ((width - o.left - o.right) * (height - o.top - o.bottom),
                          (width - m.left - m.right) * (height - m.top - m.bottom));
    other < mine || (other == mine && o.top <= m.top)
  }

  /** The maximal hole of largest area, the lowest of them on screen. */
  ghost predicate IsLargestHole(rects: seq<Rect>, width: nat, height: nat, m: Metrics) {
    && IsMaximalHole(rects, width, height, m)
    && forall o :: IsMaximalHole(rects, width, height, o) ==> NoLarger(o, m, width, height)
  }

  lemma HoleArea(m: Metrics, width: int, height: int)
    ensures Area(GroupOf(m, width, height)) == (width - m.left - m.right) * (height - m.top - m.bottom)
  {
    var (w, h) := (width - m.left - m.right, height - m.top - m.bottom);
    assert width - m.right - m.left == w && height - m.bottom - m.top == h;
  }

  lemma BestIsLargest(rects: seq<Rect>, width: nat, height: nat, runs: Runs, g: Group, m: Metrics)
    requires AreRuns(rects, width, runs) && |runs| == height && IsBest(runs, width, height, g)
    requires m == MetricsOf(g, width, height)
    ensures IsLargestHole(rects, width, height, m)
  {
    GroupIsHole(rects, width, height, runs, g);
    HoleArea(m, width, height);
    assert GroupOf(m, width, height) == g;
    forall o | IsMaximalHole(rects, width, height, o) ensures NoLarger(o, m, width, height) {
      var other := GroupOf(o, width, height);
      GroupIsHole(rects, width, height, runs, other);
      assert MetricsOf(other, width, height) == o;
      HoleArea(o, width, height);
    }
  }

  /** Answers with the insets of the largest maximal hole, exactly when the window is more than
      two pixels wide and high but not too large, a rectangle meets it, and it has such a hole. */
  method InferGuestFrame(width: int, height: int, rects: seq<Rect>) returns (r: Option<Metrics>)
    ensures r.Some? ==>
              && width > 2 && height > 2 && width * height <= 4_000_000
              && MeetsWindow(rects, width, height) && IsLargestHole(rects, width, height, r.value)
    ensures r.None? && width > 2 && height > 2 && width * height <= 4_000_000 && MeetsWindow(rects, width, height) ==>
              forall m :: !IsMaximalHole(rects, width, height, m)
  {
    if width <= 2 || height <= 2 || rects == [] {
      return None;
    }
    if width * height > MAX_PIXELS {
      return None;
    }
    var occupied, hasAny := Occupancy(width, height, rects);
    if !hasAny {
      return None;
    }
    ghost var runs;
    var groups;
    groups, runs := ScanRows(occupied, width, height, rects);
    var best := BestGroup(runs, groups, width, height);
    if best.None? {
      forall m ensures !IsMaximalHole(rects, width, height, m) {
        GroupIsHole(rects, width, height, runs, GroupOf(m, width, height));
        assert MetricsOf(GroupOf(m, width, height), width, height) == m;
      }
      return None;
    }
    var g := best.value;
    var m := Metrics(g.left, g.top, width - g.right, height - g.bottom);
    BestIsLargest(rects, width, height, runs, g, m);
    if m.left <= 0 || m.top <= 0 || m.right <= 0 || m.bottom <= 0
       || m.left + m.right >= width || m.top + m.bottom >= height {
      return None;
    }
    return Some(m);
  }
}
