/** The incremental mirror of a window surface: CPU pixels, the queue of updates owed to
the GPU texture, and the render step that settles the debt.

The guest thread paints CPU pixels and then queues what it painted; the UI thread may
render between any two of those steps. */
module Mirror {
  import opened Arith
  import opened Common
  import opened Color
  import opened Region
  import opened Raster
  import opened Images

  // ----- the per-bitmap bookkeeping

  datatype Sync = Sync(needsFull: bool, ops: seq<Op>, hasContent: bool, dcCount: nat, needsRelease: bool)

  function InitialSync(): Sync { Sync(true, [], false, 0, false) }

  function MarkDirty(s: Sync): Sync { s.(needsFull := true, needsRelease := false, ops := []) }

  function MarkHasContent(s: Sync): Sync { s.(hasContent := true) }

  function NoteRelease(s: Sync): Sync {
    if s.needsFull then s.(hasContent := true) else s.(hasContent := true, needsRelease := true)
  }

  function CountVisible(px: seq<Argb>): nat {
    if px == [] then 0 else CountVisible(px[..|px| - 1]) + if px[|px| - 1].a != 0 then 1 else 0
  }

  function CountNonBlack(px: seq<Argb>): nat {
    if px == [] then 0
    else CountNonBlack(px[..|px| - 1])
         + var p := px[|px| - 1]; if p.a != 0 && (p.r != 0 || p.g != 0 || p.b != 0) then 1 else 0
  }

  /** Whether a first upload is worth showing. */
  predicate Presentable(px: seq<Argb>) {
    px != [] && (CountNonBlack(px) * 100 / |px| >= 12 || (CountVisible(px) * 100 / |px| >= 85 && CountNonBlack(px) > 0))
  }

  function QueueUpload(s: Sync, u: Update): Sync {
    if !s.hasContent && !Presentable(u.pixels) then s
    else if !s.hasContent then s.(hasContent := true, needsFull := true, needsRelease := false, ops := [])
    else if s.needsFull then s
    else s.(needsRelease := true, ops := s.ops + [Upload(u)])
  }

  function QueueDraw(s: Sync, op: Op): Sync {
    var s1 := if !s.hasContent then s.(hasContent := true, needsFull := false) else s;
    if s1.needsFull then s1 else s1.(needsRelease := true, ops := s1.ops + [op])
  }

  function Queue(s: Sync, op: Op): Sync {
    match op
    case Upload(u) => QueueUpload(s, u)
    case Draw(_) => QueueDraw(s, op)
  }

  function DcOpened(s: Sync): Sync { s.(dcCount := s.dcCount + 1) }

  function DcClosed(s: Sync): Sync { s.(dcCount := if s.dcCount == 0 then 0 else s.dcCount - 1) }

  function ConsumeFull(s: Sync): Sync {
    if s.needsFull then s.(needsFull := false, ops := []) else s
  }

  function EnsureSync(s: Sync): Sync {
    if s.needsRelease then MarkDirty(s.(needsRelease := false)) else s
  }

  // ----- the test for a first upload, without the loops and quotients

  predicate IsBright(p: Argb) { p.a != 0 && (p.r > 0 || p.g > 0 || p.b > 0) }

  function Visibles(px: seq<Argb>): set<int> { set k | 0 <= k < |px| && px[k].a != 0 }

  function Brights(px: seq<Argb>): set<int> { set k | 0 <= k < |px| && IsBright(px[k]) }

  lemma {:induction false} CountsVisibles(px: seq<Argb>)
    ensures CountVisible(px) == |Visibles(px)|
  {
    if px != [] {
      var n := |px| - 1;
      CountsVisibles(px[..n]);
      assert Visibles(px) == if px[n].a != 0 then Visibles(px[..n]) + {n} else Visibles(px[..n]);
    }
  }

  lemma {:induction false} CountsBrights(px: seq<Argb>)
    ensures CountNonBlack(px) == |Brights(px)|
  {
    if px != [] {
      var n := |px| - 1;
      CountsBrights(px[..n]);
      assert Brights(px) == if IsBright(px[n]) then Brights(px[..n]) + {n} else Brights(px[..n]);
    }
  }

  /** At least 12 percent of the pixels are visible and not black, or at least 85 percent are
      visible and some pixel is not black. */
  lemma PresentableIff(px: seq<Argb>)
    ensures Presentable(px) <==>
              && px != []
              && (100 * |Brights(px)| >= 12 * |px| || (100 * |Visibles(px)| >= 85 * |px| && Brights(px) != {}))
  {
    CountsVisibles(px);
    CountsBrights(px);
    if px != [] {
      AtLeastIff(100 * CountNonBlack(px), |px|, 12);
      AtLeastIff(100 * CountVisible(px), |px|, 85);
    }
  }

  lemma AtLeastIff(n: nat, d: nat, q: nat)
    requires d > 0
    ensures n / d >= q <==> n >= q * d
  {
    var k := n / d;
    assert n == k * d + n % d;
    if k < q { MulGap(k, q, d); }
    if q < k { MulGap(q, k, d); }
  }

  /** What queueing a rectangle amounts to: nothing for one beside the surface, else an upload of
      exactly the pixels under it. */
  ghost predicate QueuesRect(cpu: Image, r: Rect, queued: Option<Update>) {
    && (queued.Some? <==> MeetsImage(r, cpu))
    && (queued.Some? ==> CopiesPoints(queued.value, cpu, r))
  }

  lemma RectQueued(cpu: Image, r: Rect)
    requires WellSized(cpu)
    ensures var c := ClipTo(cpu, r);
      if Nondegenerate(c)
      then QueuesRect(cpu, r, Some(CopyOf(cpu, c.left, c.top, c.right - c.left, c.bottom - c.top)))
      else QueuesRect(cpu, r, None)
  {
    var c := ClipTo(cpu, r);
    ClipMeets(cpu, r);
    if Nondegenerate(c) {
      CopyOfClip(cpu, r, c.left, c.top, c.right - c.left, c.bottom - c.top);
    }
  }

  class SurfaceSync {
    var needsFull: bool
    var ops: seq<Op>
    var hasContent: bool
    var dcCount: nat
    var needsRelease: bool

    function View(): Sync
      reads this
    {
      Sync(needsFull, ops, hasContent, dcCount, needsRelease)
    }

    constructor ()
      ensures View() == InitialSync()
    {
      needsFull, ops, hasContent, dcCount, needsRelease := true, [], false, 0, false;
    }

    method MarkContent()
      modifies this
      ensures View() == MarkHasContent(old(View())) && View() == old(View()).(hasContent := true)
    {
      hasContent := true;
    }

    /** One more window DC draws on the surface. */
    method BeginDc()
      modifies this`dcCount
      ensures View() == DcOpened(old(View())) && dcCount == old(dcCount) + 1
    {
      dcCount := dcCount + 1;
    }

    method EndDc()
      modifies this`dcCount
      ensures View() == DcClosed(old(View()))
      ensures old(dcCount) > 0 ==> dcCount == old(dcCount) - 1
      ensures old(dcCount) == 0 ==> dcCount == 0
    {
      if dcCount > 0 {
        dcCount := dcCount - 1;
      }
    }

    method MarkDirtyNow()
      modifies this
      ensures needsFull && !needsRelease && ops == [] && hasContent == old(hasContent) && dcCount == old(dcCount)
      ensures View() == MarkDirty(old(View()))
    {
      needsFull := true;
      needsRelease := false;
      ops := [];
    }

    method NoteReleaseSync()
      modifies this
      ensures hasContent && needsFull == old(needsFull) && ops == old(ops) && dcCount == old(dcCount)
      ensures needsRelease == (old(needsRelease) || !old(needsFull))
      ensures View() == NoteRelease(old(View()))
    {
      hasContent := true;
      if !needsFull {
        needsRelease := true;
      }
    }

    method CountPixels(px: seq<Argb>) returns (presentable: bool)
      ensures presentable == Presentable(px)
    {
      if |px| == 0 {
        return false;
      }
      var visible, nonBlack := 0, 0;
      for k := 0 to |px|
        invariant visible == CountVisible(px[..k]) && nonBlack == CountNonBlack(px[..k])
      {
        assert px[..k + 1][..k] == px[..k];
        if px[k].a == 0 {
          continue;
        }
        visible := visible + 1;
        if px[k].r != 0 || px[k].g != 0 || px[k].b != 0 {
          nonBlack := nonBlack + 1;
        }
      }
      assert px[..|px|] == px;
      presentable := nonBlack * 100 / |px| >= 12 || (visible * 100 / |px| >= 85 && nonBlack > 0);
    }

    method QueueBitmapUpload(u: Update)
      modifies this
      ensures !old(hasContent) && !Presentable(u.pixels) ==> View() == old(View())
      ensures old(hasContent) && old(needsFull) ==> View() == old(View())
      ensures !old(hasContent) && Presentable(u.pixels) ==> hasContent && needsFull && !needsRelease && ops == []
      ensures old(hasContent) && !old(needsFull) ==>
                hasContent && !needsFull && needsRelease && ops == old(ops) + [Upload(u)]
      ensures dcCount == old(dcCount)
      ensures View() == QueueUpload(old(View()), u)
    {
      var presentable := CountPixels(u.pixels);
      if !hasContent && !presentable {
        return;
      }
      if !hasContent {
        hasContent := true;
        needsFull := true;
        needsRelease := false;
        ops := [];
        return;
      }
      if needsFull {
        return;
      }
      needsRelease := true;
      ops := ops + [Upload(u)];
    }

    method QueueDrawCommand(op: Op)
      modifies this
      ensures old(hasContent) && old(needsFull) ==> View() == old(View())
      ensures !(old(hasContent) && old(needsFull)) ==>
                hasContent && !needsFull && needsRelease && ops == old(ops) + [op] && dcCount == old(dcCount)
      ensures View() == QueueDraw(old(View()), op)
    {
      if !hasContent {
        hasContent := true;
        needsFull := false;
      }
      if needsFull {
        return;
      }
      needsRelease := true;
      ops := ops + [op];
    }

    /** Queues a copy of exactly the pixels of `cpu` under the rectangle; a rectangle beside the
        surface queues nothing. */
    method QueueRectUpload(cpu: Image, r: Rect) returns (ghost queued: Option<Update>)
      requires WellSized(cpu)
      modifies this
      ensures QueuesRect(cpu, r, queued)
      ensures View() == if queued.Some? then QueueUpload(old(View()), queued.value) else old(View())
    {
      RectQueued(cpu, r);
      var c := ClipTo(cpu, r);
      if c.left >= c.right || c.top >= c.bottom {
        return None;
      }
      var u := CopyRect(cpu, c.left, c.top, c.right - c.left, c.bottom - c.top);
      QueueBitmapUpload(u);
      queued := Some(u);
    }

    method ConsumeFullUpload() returns (due: bool)
      modifies this
      ensures due == old(needsFull) && !needsFull && ops == if due then [] else old(ops)
      ensures hasContent == old(hasContent) && needsRelease == old(needsRelease) && dcCount == old(dcCount)
      ensures View() == ConsumeFull(old(View()))
    {
      due := needsFull;
      needsFull := false;
      if due {
        ops := [];
      }
    }

    method TakeOps() returns (taken: seq<Op>)
      modifies this
      ensures taken == old(ops) && View() == old(View()).(ops := [])
    {
      taken := ops;
      ops := [];
    }

    method EnsureReleaseSync()
      modifies this
      ensures !needsRelease && hasContent == old(hasContent) && dcCount == old(dcCount)
      ensures needsFull == (old(needsFull) || old(needsRelease)) && ops == if old(needsRelease) then [] else old(ops)
      ensures View() == EnsureSync(old(View()))
    {
      var due := needsRelease;
      needsRelease := false;
      if due {
        MarkDirtyNow();
      }
    }
  }

  // ----- the render target

  datatype Target = Target(needsFull: bool, texture: Image)

  /** Recreates the texture when the bitmap's size has changed. */
  function EnsureTexture(t: Target, cpu: Image, blank: seq<Argb>): Target {
    if SameSize(t.texture, cpu) then t else Target(true, Image(cpu.w, cpu.h, blank))
  }

  /** What one completed render does to the target and the queue. */
  function RenderStep(t: Target, s: Sync, cpu: Image, blank: seq<Argb>): (Target, Sync) {
    var t1 := EnsureTexture(t, cpu, blank);
    if t1.needsFull then (Target(false, cpu), s.(ops := []))
    else if s.needsFull then (Target(false, cpu), s.(needsFull := false, ops := []))
    else (Target(false, Replay(s.ops, t1.texture)), s.(ops := []))
  }

  class RenderTarget {
    var needsFull: bool
    var texture: Image

    function View(): Target
      reads this
    {
      Target(needsFull, texture)
    }

    constructor (initial: Image)
      ensures View() == Target(true, initial)
    {
      needsFull, texture := true, initial;
    }

    /** Skips while a DC is open, the frame is not `ready` (no window area, or a lock is taken
        elsewhere) or nothing was drawn yet. */
    method Render(sync: SurfaceSync, cpu: Image, blank: seq<Argb>, ready: bool) returns (rendered: bool)
      modifies this, sync
      ensures rendered <==> old(sync.dcCount) == 0 && ready && |cpu.px| > 0 && old(sync.hasContent)
      ensures !rendered ==> View() == old(View()) && sync.View() == old(sync.View())
      ensures rendered ==> (View(), sync.View()) == RenderStep(old(View()), old(sync.View()), cpu, blank)
      ensures rendered && (old(needsFull) || !SameSize(old(texture), cpu) || old(sync.needsFull)) ==> texture == cpu
      ensures rendered && !(old(needsFull) || !SameSize(old(texture), cpu) || old(sync.needsFull)) ==>
                texture == Replay(old(sync.ops), old(texture))
      ensures rendered ==> !needsFull && sync.ops == [] && sync.hasContent
                           && sync.needsRelease == old(sync.needsRelease) && sync.dcCount == old(sync.dcCount)
      ensures rendered ==>
                sync.needsFull == (old(sync.needsFull) && (old(needsFull) || !SameSize(old(texture), cpu)))
    {
      if sync.dcCount > 0 {
        return false;
      }
      rendered := RenderFrame(sync, cpu, blank, ready);
    }

    /** What follows the look at the DC count: uploads everything when either flag asks for it,
        or applies the queued operations in order. */
    method RenderFrame(sync: SurfaceSync, cpu: Image, blank: seq<Argb>, ready: bool) returns (rendered: bool)
      modifies this, sync
      ensures rendered <==> ready && |cpu.px| > 0 && old(sync.hasContent)
      ensures !rendered ==> View() == old(View()) && sync.View() == old(sync.View())
      ensures rendered ==> (View(), sync.View()) == RenderStep(old(View()), old(sync.View()), cpu, blank)
      ensures rendered && (old(needsFull) || !SameSize(old(texture), cpu) || old(sync.needsFull)) ==> texture == cpu
      ensures rendered && !(old(needsFull) || !SameSize(old(texture), cpu) || old(sync.needsFull)) ==>
                texture == Replay(old(sync.ops), old(texture))
      ensures rendered ==> !needsFull && sync.ops == [] && sync.hasContent
                           && sync.needsRelease == old(sync.needsRelease) && sync.dcCount == old(sync.dcCount)
      ensures rendered ==>
                sync.needsFull == (old(sync.needsFull) && (old(needsFull) || !SameSize(old(texture), cpu)))
    {
      if !ready {
        return false;
      }
      if |cpu.px| == 0 {
        return false;
      }
      if !sync.hasContent {
        return false;
      }
      if !SameSize(texture, cpu) {
        texture := Image(cpu.w, cpu.h, blank);
        needsFull := true;
      }
      var full := needsFull;
      if !full {
        full := sync.ConsumeFullUpload();
      }
      if full {
        texture := cpu;
        needsFull := false;
        var dropped := sync.TakeOps();
      } else {
        var queued := sync.TakeOps();
        var k := 0;
        ghost var before := texture;
        while k < |queued|
          invariant 0 <= k <= |queued| && texture == Replay(queued[..k], before)
          invariant !needsFull && before == old(texture) && sync.View() == old(sync.View()).(ops := [])
        {
          assert queued[..k + 1] == queued[..k] + [queued[k]];
          ReplayAppend(queued[..k], queued[k], before);
          texture := Apply(queued[k], texture);
          k := k + 1;
        }
        assert queued[..|queued|] == queued;
      }
      rendered := true;
    }
  }
}
