/** The guest heap: a bump cursor with a best-fit free list. */
module Heap {
  import opened Spans
  import opened Common

  const HEAP_BASE := 0x2000_0000
  const HEAP_SIZE := 0x1000_0000
  const HEAP_END := HEAP_BASE + HEAP_SIZE
  const U32_LIMIT := 0x1_0000_0000

  /** Live blocks by address, with their sizes. */
  type LiveMap = map<int, int>

  /** The size in whole words, at least one, unless that leaves 32 bits. */
  function AlignHeapSize(size: nat): (r: Option<int>)
    ensures r.None? <==> size + 3 >= 0x1_0000_0000
    ensures r.Some? ==> r.value % 4 == 0 && Max(size, 1) <= r.value <= size + 3 + (if size == 0 then 1 else 0)
  {
    var base := if size == 0 then 1 else size;
    if base >= U32_LIMIT || base + 3 >= U32_LIMIT then None else Some((base + 3) / 4 * 4)
  }

  predicate InLive(live: LiveMap, p: int) {
    exists a :: a in live && a <= p < a + live[a]
  }

  ghost predicate LiveForm(live: LiveMap) {
    && (forall a :: a in live ==> live[a] > 0 && a % 4 == 0 && live[a] % 4 == 0)
    && (forall a, b :: a in live && b in live && a < b ==> a + live[a] <= b)
  }

  /** Nonempty free blocks in any order, with a gap between any two. */
  ghost predicate FreeForm(free: seq<Span>) {
    && (forall i :: 0 <= i < |free| ==> free[i].lo < free[i].hi)
    && (forall i, j :: 0 <= i < j < |free| ==> free[i].hi < free[j].lo || free[j].hi < free[i].lo)
  }

  /** Every address below the cursor is in exactly one block, live or free, and no other is. */
  ghost predicate Tiled(live: LiveMap, free: seq<Span>, cursor: int) {
    && (forall p :: HEAP_BASE <= p < cursor <==> InLive(live, p) || InRow(free, p))
    && (forall p :: InLive(live, p) ==> !InRow(free, p))
  }

  ghost predicate HeapForm(live: LiveMap, free: seq<Span>, cursor: int) {
    && HEAP_BASE <= cursor <= HEAP_END && cursor % 4 == 0
    && LiveForm(live) && FreeForm(free) && Tiled(live, free, cursor)
  }

  function Size(b: Span): int { b.hi - b.lo }

  // ----- consequences of the form

  lemma FreeGaps(free: seq<Span>, i: nat)
    requires FreeForm(free) && i < |free|
    ensures InRow(free, free[i].lo) && InRow(free, free[i].hi - 1)
    ensures !InRow(free, free[i].lo - 1) && !InRow(free, free[i].hi)
  {
    assert free[i].lo <= free[i].lo < free[i].hi;
  }

  /** Free blocks begin where a live block (or nothing) ends and end where one begins, or at
      the cursor; hence they are aligned like the live ones. */
  lemma FreeNeighbours(live: LiveMap, free: seq<Span>, cursor: int, i: nat)
    requires HeapForm(live, free, cursor) && i < |free|
    ensures free[i].lo == HEAP_BASE || InLive(live, free[i].lo - 1)
    ensures free[i].hi == cursor || free[i].hi in live
    ensures free[i].lo % 4 == 0 && free[i].hi % 4 == 0
  {
    var b := free[i];
    FreeGaps(free, i);
    if b.lo != HEAP_BASE {
      assert InLive(live, b.lo - 1);
      LiveBlockEnds(live, b.lo - 1);
    }
    if b.hi != cursor {
      assert InLive(live, b.hi);
      LiveBlockStarts(live, b.hi);
    }
  }

  lemma LiveBlockEnds(live: LiveMap, p: int)
    requires LiveForm(live) && InLive(live, p) && !InLive(live, p + 1)
    ensures (p + 1) % 4 == 0
  {
    var a :| a in live && a <= p < a + live[a];
    assert p + 1 == a + live[a];
  }

  lemma LiveBlockStarts(live: LiveMap, p: int)
    requires LiveForm(live) && InLive(live, p) && !InLive(live, p - 1)
    ensures p in live && p % 4 == 0
  {
    var a :| a in live && a <= p < a + live[a];
    assert p == a;
  }

  function FreeEnds(free: seq<Span>): set<int> {
    set i | 0 <= i < |free| :: free[i].hi
  }

  /** Fragmentation bound: two free blocks never abut, so each but the last is followed by a
      live block of its own. */
  lemma FragmentationBound(live: LiveMap, free: seq<Span>, cursor: int)
    requires HeapForm(live, free, cursor)
    ensures |free| <= |live| + 1
  {
    EndsDistinct(free);
    forall e | e in FreeEnds(free) ensures e in live.Keys + {cursor} {
      var i :| 0 <= i < |free| && free[i].hi == e;
      FreeNeighbours(live, free, cursor, i);
    }
    SubsetSize(FreeEnds(free), live.Keys + {cursor});
  }

  lemma {:induction false} EndsDistinct(free: seq<Span>)
    requires FreeForm(free)
    ensures |FreeEnds(free)| == |free|
  {
    if free != [] {
      var n := |free| - 1;
      EndsDistinct(free[..n]);
      assert FreeEnds(free) == FreeEnds(free[..n]) + {free[n].hi};
      assert free[n].hi !in FreeEnds(free[..n]);
    }
  }

  // ----- conservation

  ghost function LiveSpans(live: LiveMap): set<Span> {
    set a | a in live :: Span(a, a + live[a])
  }

  ghost function FreeSpans(free: seq<Span>): set<Span> {
    set i | 0 <= i < |free| :: free[i]
  }

  ghost function SumSizes(blocks: set<Span>): int {
    if blocks == {} then 0 else var b :| b in blocks; Size(b) + SumSizes(blocks - {b})
  }

  lemma {:induction false} SumPick(blocks: set<Span>, b: Span)
    requires b in blocks
    ensures SumSizes(blocks) == Size(b) + SumSizes(blocks - {b})
    decreases |blocks|
  {
    var c :| c in blocks && SumSizes(blocks) == Size(c) + SumSizes(blocks - {c});
    if b != c {
      SumPick(blocks - {c}, b);
      SumPick(blocks - {b}, c);
      assert blocks - {c} - {b} == blocks - {b} - {c};
    }
  }

  lemma {:induction false} SumUnion(a: set<Span>, b: set<Span>)
    requires a !! b
    ensures SumSizes(a + b) == SumSizes(a) + SumSizes(b)
  {
    if a == {} {
      assert a + b == b;
    } else {
      var x :| x in a;
      SumPick(a, x);
      SumPick(a + b, x);
      assert a + b - {x} == (a - {x}) + b;
      SumUnion(a - {x}, b);
    }
  }

  ghost predicate SetTiles(blocks: set<Span>, lo: int, hi: int) {
    && (forall b :: b in blocks ==> lo <= b.lo < b.hi <= hi)
    && (forall b, c :: b in blocks && c in blocks && b != c ==> b.hi <= c.lo || c.hi <= b.lo)
    && (forall p :: lo <= p < hi ==> InBlock(blocks, p))
  }

  ghost predicate InBlock(blocks: set<Span>, p: int) {
    exists b :: b in blocks && b.lo <= p < b.hi
  }

  lemma TilesBelow(blocks: set<Span>, lo: int, hi: int, last: Span)
    requires SetTiles(blocks, lo, hi) && last in blocks && last.hi == hi
    ensures SetTiles(blocks - {last}, lo, last.lo)
  {
    forall p | lo <= p < last.lo ensures InBlock(blocks - {last}, p) {
      assert InBlock(blocks, p);
      var b :| b in blocks && b.lo <= p < b.hi;
      assert b in blocks - {last};
    }
  }

  lemma {:induction false} TilesSum(blocks: set<Span>, lo: int, hi: int)
    requires lo <= hi && SetTiles(blocks, lo, hi)
    ensures SumSizes(blocks) == hi - lo
    decreases |blocks|
  {
    if lo < hi {
      assert InBlock(blocks, hi - 1);
      var last :| last in blocks && last.lo <= hi - 1 < last.hi;
      TilesBelow(blocks, lo, hi, last);
      SumPick(blocks, last);
      TilesSum(blocks - {last}, lo, last.lo);
    } else {
      assert blocks == {};
    }
  }

  lemma LiveBlockBounds(live: LiveMap, free: seq<Span>, cursor: int, a: int)
    requires HeapForm(live, free, cursor) && a in live
    ensures HEAP_BASE <= a && a + live[a] <= cursor
    ensures forall i :: 0 <= i < |free| ==> a + live[a] <= free[i].lo || free[i].hi <= a
  {
    assert InLive(live, a) && InLive(live, a + live[a] - 1);
    forall i | 0 <= i < |free| ensures a + live[a] <= free[i].lo || free[i].hi <= a {
      assert InRow(free, free[i].lo);
      var lo := free[i].lo;
      assert a <= lo < a + live[a] ==> InLive(live, lo);
      assert lo <= a < free[i].hi ==> InRow(free, a);
    }
  }

  /** Every address handed out lies in the heap's range and is a multiple of four. */
  lemma LiveInRange(live: LiveMap, free: seq<Span>, cursor: int, a: int)
    requires HeapForm(live, free, cursor) && a in live
    ensures 0x2000_0000 <= a && a + live[a] <= 0x3000_0000 && a % 4 == 0 && live[a] % 4 == 0
  {
    LiveBlockBounds(live, free, cursor, a);
  }

  lemma FormTiles(live: LiveMap, free: seq<Span>, cursor: int)
    requires HeapForm(live, free, cursor)
    ensures LiveSpans(live) !! FreeSpans(free)
    ensures SetTiles(LiveSpans(live) + FreeSpans(free), HEAP_BASE, cursor)
  {
    var blocks := LiveSpans(live) + FreeSpans(free);
    forall a | a in live
      ensures HEAP_BASE <= a && a + live[a] <= cursor
      ensures forall i :: 0 <= i < |free| ==> a + live[a] <= free[i].lo || free[i].hi <= a
    {
      LiveBlockBounds(live, free, cursor, a);
    }
    forall i | 0 <= i < |free| ensures HEAP_BASE <= free[i].lo && free[i].hi <= cursor {
      assert InRow(free, free[i].lo) && InRow(free, free[i].hi - 1);
    }
    forall p | HEAP_BASE <= p < cursor ensures InBlock(blocks, p) {
      InSomeBlock(live, free, p);
    }
  }

  lemma InSomeBlock(live: LiveMap, free: seq<Span>, p: int)
    requires InLive(live, p) || InRow(free, p)
    ensures InBlock(LiveSpans(live) + FreeSpans(free), p)
  {
    if InLive(live, p) {
      var a :| a in live && a <= p < a + live[a];
      assert Span(a, a + live[a]) in LiveSpans(live);
    } else {
      var i :| 0 <= i < |free| && free[i].lo <= p < free[i].hi;
      assert free[i] in FreeSpans(free);
    }
  }

  /** No byte below the cursor is lost: live and free sizes always add up to the whole. */
  lemma Conservation(live: LiveMap, free: seq<Span>, cursor: int)
    requires HeapForm(live, free, cursor)
    ensures SumSizes(LiveSpans(live)) + SumSizes(FreeSpans(free)) == cursor - HEAP_BASE
  {
    FormTiles(live, free, cursor);
    SumUnion(LiveSpans(live), FreeSpans(free));
    TilesSum(LiveSpans(live) + FreeSpans(free), HEAP_BASE, cursor);
  }

  /** History leaves no trace: the live blocks and the cursor alone decide which free blocks
      there are.  So freeing what was just carved out restores the very same free blocks. */
  lemma FreeBlocksDetermined(live: LiveMap, free: seq<Span>, free': seq<Span>, cursor: int)
    requires HeapForm(live, free, cursor) && HeapForm(live, free', cursor)
    ensures FreeSpans(free) == FreeSpans(free')
  {
    forall p ensures InRow(free, p) <==> InRow(free', p) {
      assert HEAP_BASE <= p < cursor <==> InLive(live, p) || InRow(free, p);
    }
    forall i | 0 <= i < |free| ensures free[i] in free' {
      FreeBlockIn(free, free', i);
    }
    forall i | 0 <= i < |free'| ensures free'[i] in free {
      FreeBlockIn(free', free, i);
    }
  }

  lemma FreeBlockIn(free: seq<Span>, free': seq<Span>, i: nat)
    requires FreeForm(free) && FreeForm(free') && i < |free|
    requires forall p :: InRow(free, p) <==> InRow(free', p)
    ensures free[i] in free'
  {
    var b := free[i];
    FreeGaps(free, i);
    assert InRow(free', b.lo);
    var j :| 0 <= j < |free'| && free'[j].lo <= b.lo < free'[j].hi;
    var c := free'[j];
    FreeGaps(free', j);
    assert forall p :: c.lo <= p < c.hi ==> InRow(free, p);
    assert forall p :: b.lo <= p < b.hi ==> InRow(free', p);
    assert c.lo == b.lo && c.hi == b.hi;
  }

  // ----- list maintenance

  function SwapRemove(free: seq<Span>, i: nat): seq<Span>
    requires i < |free|
  {
    free[i := free[|free| - 1]][..|free| - 1]
  }

  lemma SwapRemoveKeepsForm(free: seq<Span>, i: nat)
    requires FreeForm(free) && i < |free|
    ensures FreeForm(SwapRemove(free, i))
    ensures forall p :: InRow(SwapRemove(free, i), p) <==> InRow(free, p) && !(free[i].lo <= p < free[i].hi)
  {
    var rest, last := SwapRemove(free, i), |free| - 1;
    forall p ensures InRow(rest, p) <==> InRow(free, p) && !(free[i].lo <= p < free[i].hi) {
      if InRow(free, p) && !(free[i].lo <= p < free[i].hi) {
        var j :| 0 <= j < |free| && free[j].lo <= p < free[j].hi;
        var k := if j == last then i else j;
        assert rest[k] == free[j];
      }
      if InRow(rest, p) {
        var k :| 0 <= k < |rest| && rest[k].lo <= p < rest[k].hi;
        var j := if k == i then last else k;
        assert rest[k] == free[j] && j != i;
      }
    }
  }

  /** Append, sort by address, merge what touches. */
  method PushFreeBlock(free: seq<Span>, block: Span) returns (merged: seq<Span>)
    requires FreeForm(free) && block.lo < block.hi
    ensures FreeForm(merged) && RowForm(merged)
    ensures forall p :: InRow(merged, p) <==> InRow(free, p) || block.lo <= p < block.hi
  {
    var pushed, sorted := free + [block], [];
    for k := 0 to |pushed|
      invariant SortedByStart(sorted)
      invariant forall s :: s in sorted <==> s in pushed[..k]
    {
      sorted := InsertSpan(sorted, pushed[k]);
      assert pushed[..k + 1] == pushed[..k] + [pushed[k]];
    }
    assert pushed[..|pushed|] == pushed;
    RowAppend(free, block);
    forall p ensures InRow(sorted, p) <==> InRow(pushed, p) {
      SameMembersSameRow(sorted, pushed, p);
    }
    merged := MergeSpans(sorted);
  }

  lemma SameMembersSameRow(a: seq<Span>, b: seq<Span>, p: int)
    requires forall s :: s in a <==> s in b
    ensures InRow(a, p) <==> InRow(b, p)
  {
    if InRow(a, p) {
      var i :| 0 <= i < |a| && a[i].lo <= p < a[i].hi;
      assert a[i] in b;
    }
    if InRow(b, p) {
      var i :| 0 <= i < |b| && b[i].lo <= p < b[i].hi;
      assert b[i] in a;
    }
  }

  ghost predicate Fits(free: seq<Span>, need: int) {
    exists i :: 0 <= i < |free| && Size(free[i]) >= need
  }

  ghost predicate IsBestFit(free: seq<Span>, i: int, need: int) {
    && 0 <= i < |free| && Size(free[i]) >= need
    && (forall j :: 0 <= j < |free| && Size(free[j]) >= need ==> Size(free[i]) <= Size(free[j]))
  }

  /** The first of the smallest blocks that are large enough. */
  method BestFit(free: seq<Span>, need: int) returns (best: Option<nat>)
    ensures best.Some? <==> Fits(free, need)
    ensures best.Some? ==>
              && IsBestFit(free, best.value, need)
              && (forall i :: 0 <= i < best.value && Size(free[i]) >= need ==> Size(free[best.value]) < Size(free[i]))
  {
    best := None;
    for k := 0 to |free|
      invariant best.None? ==> forall i :: 0 <= i < k ==> Size(free[i]) < need
      invariant best.Some? ==>
                  && best.value < k && Size(free[best.value]) >= need
                  && (forall i :: 0 <= i < k && Size(free[i]) >= need ==> Size(free[best.value]) <= Size(free[i]))
                  && (forall i :: 0 <= i < best.value && Size(free[i]) >= need ==>
                      Size(free[best.value]) < Size(free[i]))
    {
      if Size(free[k]) >= need && (best.None? || Size(free[k]) < Size(free[best.value])) {
        best := Some(k);
      }
    }
  }

  /** Adding a block over addresses that no live block uses. */
  lemma LiveInsert(live: LiveMap, addr: int, need: int)
    requires LiveForm(live) && need > 0 && addr % 4 == 0 && need % 4 == 0
    requires forall p :: addr <= p < addr + need ==> !InLive(live, p)
    ensures addr !in live && LiveForm(live[addr := need])
    ensures forall p :: InLive(live[addr := need], p) <==> InLive(live, p) || addr <= p < addr + need
  {
    var more := live[addr := need];
    if addr in live {
      assert InLive(live, addr);
      assert false;
    }
    forall a | a in live ensures a + live[a] <= addr || addr + need <= a {
      assert a <= addr ==> a + live[a] <= addr || InLive(live, addr);
      assert addr <= a < addr + need ==> InLive(live, a);
    }
    forall p ensures InLive(more, p) <==> InLive(live, p) || addr <= p < addr + need {
      if InLive(live, p) {
        var a :| a in live && a <= p < a + live[a];
        assert a in more && more[a] == live[a];
      }
      if addr <= p < addr + need {
        assert addr in more;
      }
    }
  }

  lemma LiveRemove(live: LiveMap, addr: int)
    requires LiveForm(live) && addr in live
    ensures LiveForm(live - {addr})
    ensures forall p :: InLive(live - {addr}, p) <==> InLive(live, p) && !(addr <= p < addr + live[addr])
  {
    var less := live - {addr};
    forall p ensures InLive(less, p) <==> InLive(live, p) && !(addr <= p < addr + live[addr]) {
      if InLive(live, p) && !(addr <= p < addr + live[addr]) {
        var a :| a in live && a <= p < a + live[a];
        assert a in less;
      }
    }
  }

  /** Taking the first `need` bytes of a free block. */
  lemma CarveKeepsForm(live: LiveMap, free: seq<Span>, cursor: int, i: nat, need: int, rest: seq<Span>)
    requires HeapForm(live, free, cursor) && i < |free| && 0 < need <= Size(free[i]) && need % 4 == 0
    requires FreeForm(rest)
    requires forall p :: InRow(rest, p) <==> InRow(free, p) && !(free[i].lo <= p < free[i].lo + need)
    ensures free[i].lo !in live && HeapForm(live[free[i].lo := need], rest, cursor)
  {
    var f := free[i];
    FreeNeighbours(live, free, cursor, i);
    assert forall p :: f.lo <= p < f.hi ==> InRow(free, p);
    LiveInsert(live, f.lo, need);
    var more := live[f.lo := need];
    forall p ensures HEAP_BASE <= p < cursor <==> InLive(more, p) || InRow(rest, p) {
      assert HEAP_BASE <= p < cursor <==> InLive(live, p) || InRow(free, p);
    }
    forall p ensures InLive(more, p) ==> !InRow(rest, p) {
      assert InLive(live, p) ==> !InRow(free, p);
    }
    assert Tiled(more, rest, cursor);
  }

  lemma BumpKeepsForm(live: LiveMap, free: seq<Span>, cursor: int, need: int)
    requires HeapForm(live, free, cursor) && need > 0 && need % 4 == 0 && cursor + need <= HEAP_END
    ensures cursor !in live && HeapForm(live[cursor := need], free, cursor + need)
  {
    LiveInsert(live, cursor, need);
    forall p ensures HEAP_BASE <= p < cursor + need <==> InLive(live[cursor := need], p) || InRow(free, p) {
      assert HEAP_BASE <= p < cursor <==> InLive(live, p) || InRow(free, p);
    }
  }

  class GuestHeap {
    var cursor: int
    var allocations: LiveMap
    var freeList: seq<Span>

    ghost predicate Valid()
      reads this
    {
      HeapForm(allocations, freeList, cursor)
    }

    constructor ()
      ensures Valid() && allocations == map[] && freeList == [] && cursor == 0x2000_0000
    {
      cursor, allocations, freeList := HEAP_BASE, map[], [];
    }

    /** Takes the head of one free block and gives the rest back to the list. */
    method CarveFree(i: nat, n: int) returns (addr: int)
      requires Valid() && i < |freeList| && 0 < n <= Size(freeList[i]) && n % 4 == 0
      modifies this`allocations, this`freeList
      ensures Valid() && addr == old(freeList)[i].lo
      ensures addr !in old(allocations) && allocations == old(allocations)[addr := n]
      ensures forall p :: addr <= p < addr + n ==> !InLive(old(allocations), p)
    {
      ghost var before := freeList;
      var f := freeList[i];
      SwapRemoveKeepsForm(freeList, i);
      assert forall p :: f.lo <= p < f.hi ==> InRow(freeList, p) && !InLive(allocations, p);
      freeList := SwapRemove(freeList, i);
      if Size(f) > n {
        freeList := PushFreeBlock(freeList, Span(f.lo + n, f.hi));
      }
      CarveKeepsForm(allocations, before, cursor, i, n, freeList);
      allocations := allocations[f.lo := n];
      addr := f.lo;
    }

    /** A smallest sufficient free block if there is one, else fresh space at the cursor;
        fails, changing nothing, only when neither exists.  No other live block is touched. */
    method Alloc(size: nat) returns (r: Option<int>)
      requires Valid()
      modifies this
      ensures Valid()
      ensures r.Some? <==>
                var need := AlignHeapSize(size);
                need.Some? && (Fits(old(freeList), need.value) || old(cursor) + need.value <= HEAP_END)
      ensures r.None? ==> || size + 3 >= 0x1_0000_0000
                          || (!Fits(old(freeList), AlignHeapSize(size).value)
                              && old(cursor) + AlignHeapSize(size).value > 0x3000_0000)
      ensures r.None? ==> allocations == old(allocations) && freeList == old(freeList) && cursor == old(cursor)
      ensures r.Some? ==>
                var need := AlignHeapSize(size).value;
                && r.value !in old(allocations) && allocations == old(allocations)[r.value := need]
                && (forall p :: r.value <= p < r.value + need ==> !InLive(old(allocations), p))
      ensures r.Some? && Fits(old(freeList), AlignHeapSize(size).value) ==>
                && cursor == old(cursor)
                && exists i :: IsBestFit(old(freeList), i, AlignHeapSize(size).value) && r.value == old(freeList)[i].lo
      ensures r.Some? && !Fits(old(freeList), AlignHeapSize(size).value) ==>
                && r.value == old(cursor) && cursor == old(cursor) + AlignHeapSize(size).value
                && freeList == old(freeList)
    {
      var need := AlignHeapSize(size);
      if need.None? {
        return None;
      }
      var n := need.value;
      var best := BestFit(freeList, n);
      if best.Some? {
        var addr := CarveFree(best.value, n);
        return Some(addr);
      }
      var end := cursor + n;
      if end >= U32_LIMIT {
        return None;
      }
      if end > HEAP_END {
        return None;
      }
      BumpKeepsForm(allocations, freeList, cursor, n);
      r := Some(cursor);
      allocations := allocations[cursor := n];
      cursor := end;
    }

    method Free(addr: int) returns (ok: bool)
      requires Valid()
      modifies this
      ensures Valid() && cursor == old(cursor)
      ensures ok <==> addr in old(allocations)
      ensures allocations == old(allocations) - {addr}
      ensures !ok ==> freeList == old(freeList)
      ensures ok ==> forall p ::
                InRow(freeList, p) <==> InRow(old(freeList), p) || addr <= p < addr + old(allocations)[addr]
    {
      if addr in allocations {
        assert InLive(allocations, addr);
      }
      if addr < HEAP_BASE {
        return false;
      }
      if addr !in allocations {
        return false;
      }
      var size := allocations[addr];
      LiveRemove(allocations, addr);
      assert forall p :: addr <= p < addr + size ==> InLive(allocations, p);
      allocations := allocations - {addr};
      freeList := PushFreeBlock(freeList, Span(addr, addr + size));
      return true;
    }

    /** Scans the live blocks in whatever order the map yields them; the answer is the one
        block that contains the whole range, if any. */
    method AllocationForRange(addr: nat, size: nat) returns (r: Option<(int, int)>)
      requires Valid()
      ensures var len := if size == 0 then 1 else size;
        r.Some? <==> exists a :: a in allocations && a <= addr && addr + len <= a + allocations[a]
      ensures r.Some? ==> var len := if size == 0 then 1 else size;
                && r.value.0 in allocations && r.value.1 == allocations[r.value.0]
                && r.value.0 <= addr && addr + len <= r.value.0 + r.value.1
                && forall a :: a in allocations && a <= addr && addr + len <= a + allocations[a] ==> a == r.value.0
    {
      var len := if size == 0 then 1 else size;
      forall a | a in allocations ensures HEAP_BASE <= a && a + allocations[a] <= HEAP_END {
        assert InLive(allocations, a) && InLive(allocations, a + allocations[a] - 1);
      }
      if addr >= U32_LIMIT || len >= U32_LIMIT || addr + len - 1 >= U32_LIMIT {
        return None;
      }
      var todo := allocations.Keys;
      while todo != {}
        invariant todo <= allocations.Keys
        invariant forall a :: a in allocations && a !in todo ==>
            !(a <= addr && addr + len - 1 <= a + allocations[a] - 1)
      {
        var a :| a in todo;
        todo := todo - {a};
        if addr >= a && addr + len - 1 <= a + allocations[a] - 1 {
          return Some((a, allocations[a]));
        }
      }
      return None;
    }
  }
}
