/** Every run of painting, queueing, DC and render steps over one window surface. */
module MirrorRuns {
  import opened Common
  import opened Color
  import opened Region
  import opened Raster
  import opened Images
  import opened Mirror

  /** What a drawing call has painted on the CPU but not reported yet. */
  datatype Owed = Settled | Queueing(ops: seq<Op>) | Dirtying | Noting

  /** `unsent` records that an erase has changed pixels for which nothing was queued. */
  datatype World = World(cpu: Image, sync: Sync, target: Target, owed: Owed, unsent: bool)

  /** `RenderLate` is a render whose look at the DC count is already past: a DC may have been
      opened and drawn through since. */
  datatype Step =
    | BeginDc
    | EndDc
    | EnsureRelease
    | Paint(after: Image, ops: seq<Op>)
    | PaintAll(after: Image)
    | Erase(after: Image)
    | Publish
    | Resize(after: Image)
    | Render(blank: seq<Argb>)
    | RenderLate(blank: seq<Argb>)

  function Initial(cpu: Image, texture: Image): World {
    World(cpu, InitialSync(), Target(true, texture), Settled, false)
  }

  function CopyOps(img: Image, area: Rect): seq<Op>
    requires WellSized(img)
  {
    var c := ClipTo(img, area);
    if Nondegenerate(c) then [Upload(CopyOf(img, c.left, c.top, c.right - c.left, c.bottom - c.top))] else []
  }

  predicate Shows(w: World) {
    |w.cpu.px| > 0 && w.sync.hasContent
  }

  predicate Renders(w: World) {
    w.sync.dcCount == 0 && Shows(w)
  }

  /** The render target's own reasons for a full upload. */
  predicate TargetDue(w: World) {
    w.target.needsFull || !SameSize(w.target.texture, w.cpu)
  }

  predicate FullDue(w: World) {
    TargetDue(w) || w.sync.needsFull
  }

  function PublishOne(w: World): World {
    match w.owed
    case Settled => w
    case Dirtying => w.(sync := MarkDirty(MarkHasContent(w.sync)), owed := Settled, unsent := false)
    case Noting => w.(sync := NoteRelease(w.sync), owed := Settled)
    case Queueing(ops) =>
      if ops == [] then w.(owed := Settled)
      else w.(sync := Queue(w.sync, ops[0]), owed := Queueing(ops[1..]))
  }

  function Rendered(w: World, blank: seq<Argb>): World {
    var r := RenderStep(w.target, w.sync, w.cpu, blank);
    w.(target := r.0, sync := r.1, unsent := w.unsent && !FullDue(w))
  }

  function Next(w: World, step: Step): World {
    match step
    case BeginDc => w.(sync := DcOpened(w.sync))
    case EndDc => w.(sync := DcClosed(w.sync))
    case EnsureRelease => w.(sync := EnsureSync(w.sync), unsent := w.unsent && !EnsureSync(w.sync).needsFull)
    case Paint(after, ops) => w.(cpu := after, owed := Queueing(ops))
    case PaintAll(after) => w.(cpu := after, owed := Dirtying)
    case Erase(after) => w.(cpu := after, owed := Noting, unsent := w.unsent || !w.sync.needsFull)
    case Publish => PublishOne(w)
    case Resize(after) => w.(cpu := after, sync := MarkDirty(w.sync), unsent := false)
    case Render(blank) => if Renders(w) then Rendered(w, blank) else w
    case RenderLate(blank) => if Shows(w) then Rendered(w, blank) else w
  }

  /** The discipline of the drawing calls: they run one at a time, keep the bitmap's size, draw
      through a DC that stays open until they are done, and queue operations that reproduce what
      they painted.  The UI thread may resize the surface or render it at any moment. */
  ghost predicate Allowed(w: World, step: Step) {
    match step
    case BeginDc => w.owed.Settled?
    case EndDc => w.owed.Settled?
    case EnsureRelease => w.owed.Settled?
    case Paint(after, ops) =>
      w.owed.Settled? && w.sync.dcCount > 0 && WellSized(after) && SameSize(after, w.cpu) && Replay(ops, w.cpu) == after
    case PaintAll(after) => w.owed.Settled? && w.sync.dcCount > 0 && WellSized(after) && SameSize(after, w.cpu)
    case Erase(after) => w.owed.Settled? && WellSized(after) && SameSize(after, w.cpu)
    case Publish => !w.owed.Settled?
    case Resize(after) => WellSized(after)
    case Render(_) => true
    case RenderLate(_) => false
  }

  function OwedOps(w: World): seq<Op> {
    if w.owed.Queueing? then w.owed.ops else []
  }

  /** Nothing that was drawn is ever forgotten: some flag still asks for a full upload, or an
      erase still waits for its release, or the queue brings the texture up to the CPU. */
  ghost predicate NothingLost(w: World) {
    FullDue(w) || w.unsent || w.owed.Dirtying? || Replay(w.sync.ops + OwedOps(w), w.target.texture) == w.cpu
  }

  ghost predicate Inv(w: World) {
    && WellSized(w.cpu)
    && NothingLost(w)
    && (w.sync.needsFull ==> |w.sync.ops| == 0 && !w.sync.needsRelease)
    && (|w.sync.ops| > 0 ==> w.sync.needsRelease && w.sync.hasContent)
    && (!w.target.needsFull ==> w.sync.hasContent)
    && (!w.sync.needsFull ==> w.sync.hasContent)
    && (w.unsent ==> w.sync.hasContent && (w.owed.Noting? || w.sync.needsFull || w.sync.needsRelease))
    && (w.owed.Queueing? || w.owed.Dirtying? ==> w.sync.dcCount > 0)
  }

  lemma PaintKeepsInv(w: World, after: Image, ops: seq<Op>)
    requires Inv(w) && Allowed(w, Paint(after, ops))
    ensures Inv(Next(w, Paint(after, ops)))
  {
    assert w.sync.ops + [] == w.sync.ops;
    ReplayConcat(w.sync.ops, ops, w.target.texture);
  }

  /** Painting under a rectangle and uploading a copy of it obeys the discipline. */
  lemma RectPaintAllowed(w: World, after: Image, area: Rect)
    requires w.owed.Settled? && w.sync.dcCount > 0 && WellSized(w.cpu) && WellSized(after) && SameSize(after, w.cpu)
    requires ChangedOnlyIn(w.cpu, after, area)
    ensures Allowed(w, Paint(after, CopyOps(after, area)))
  {
    forall x: nat, y: nat | x < w.cpu.w && y < w.cpu.h && !InRect(ClipTo(w.cpu, area), x, y)
      ensures Pixel(after, x, y) == Pixel(w.cpu, x, y)
    {
      ClipPoints(w.cpu, area, x, y);
    }
    CopyCatchesUp(w.cpu, after, area);
  }

  lemma CopyCatchesUp(before: Image, after: Image, area: Rect)
    requires WellSized(before) && WellSized(after) && SameSize(before, after)
    requires ChangedOnlyIn(before, after, ClipTo(before, area))
    ensures Replay(CopyOps(after, area), before) == after
  {
    var c := ClipTo(after, area);
    if Nondegenerate(c) {
      var u := CopyOf(after, c.left, c.top, c.right - c.left, c.bottom - c.top);
      CopyOneCatchesUp(before, after, u);
      ReplayAppend([], Upload(u), before);
      assert [] + [Upload(u)] == CopyOps(after, area);
    } else {
      SamePixels(before, after, c);
    }
  }

  lemma CopyOneCatchesUp(before: Image, after: Image, u: Update)
    requires WellSized(before) && WellSized(after) && SameSize(before, after)
    requires Inside(after, u.x, u.y, u.w, u.h) && u == CopyOf(after, u.x, u.y, u.w, u.h)
    requires ChangedOnlyIn(before, after, Rect(u.x, u.y, u.x + u.w, u.y + u.h))
    ensures Apply(Upload(u), before) == after
  {
    CopyOfIsCopy(after, u);
    UploadCatchesUp(before, after, Rect(u.x, u.y, u.x + u.w, u.y + u.h), u);
  }

  lemma SamePixels(before: Image, after: Image, r: Rect)
    requires WellSized(before) && WellSized(after) && SameSize(before, after)
    requires ChangedOnlyIn(before, after, r) && !Nondegenerate(r)
    ensures before == after
  {
    forall y: nat, x: nat | y < before.h && x < before.w
      ensures after.px[Idx(before.w, before.h, x, y)] == before.px[Idx(before.w, before.h, x, y)]
    {
      assert Pixel(after, x, y) == Pixel(before, x, y);
    }
    SameEverywhere(before.w, before.h, before.px, after.px);
  }

  lemma PublishKeepsInv(w: World)
    requires Inv(w) && Allowed(w, Publish)
    ensures Inv(Next(w, Publish))
  {
    if w.owed.Queueing? && w.owed.ops != [] {
      assert w.sync.ops + w.owed.ops == (w.sync.ops + [w.owed.ops[0]]) + w.owed.ops[1..];
    }
  }

  lemma RenderKeepsInv(w: World, blank: seq<Argb>)
    requires Inv(w)
    ensures Inv(Next(w, Render(blank)))
    ensures Renders(w) && (FullDue(w) || !w.unsent) ==> Next(w, Render(blank)).target.texture == w.cpu
  {
    assert w.sync.ops + [] == w.sync.ops;
    if Renders(w) {
      var w' := Next(w, Render(blank));
      assert w'.sync.ops + OwedOps(w') == [];
    }
  }

  /** Every step keeps the invariant. */
  lemma StepKeepsInv(w: World, step: Step)
    requires Inv(w) && Allowed(w, step)
    ensures Inv(Next(w, step))
  {
    match step
    case Paint(after, ops) => PaintKeepsInv(w, after, ops);
    case Publish => PublishKeepsInv(w);
    case Render(blank) => RenderKeepsInv(w, blank);
    case _ =>
  }

  // ----- runs

  function Run(w: World, steps: seq<Step>): World {
    if steps == [] then w else Next(Run(w, steps[..|steps| - 1]), steps[|steps| - 1])
  }

  /** Every step of the run is allowed where it happens. */
  ghost predicate AllowedRun(w: World, steps: seq<Step>) {
    steps != [] ==>
      var n := |steps| - 1;
      AllowedRun(w, steps[..n]) && Allowed(Run(w, steps[..n]), steps[n])
  }

  lemma RunOn(w: World, steps: seq<Step>, step: Step)
    ensures Run(w, steps + [step]) == Next(Run(w, steps), step)
    ensures AllowedRun(w, steps + [step]) <==> AllowedRun(w, steps) && Allowed(Run(w, steps), step)
  {
    assert (steps + [step])[..|steps|] == steps;
  }

  lemma {:induction false} RunKeepsInv(cpu: Image, texture: Image, steps: seq<Step>)
    requires WellSized(cpu) && AllowedRun(Initial(cpu, texture), steps)
    ensures Inv(Run(Initial(cpu, texture), steps))
  {
    if steps != [] {
      RunKeepsInv(cpu, texture, steps[..|steps| - 1]);
      StepKeepsInv(Run(Initial(cpu, texture), steps[..|steps| - 1]), steps[|steps| - 1]);
    }
  }

  /** An erase that no DC release has followed yet. */
  predicate ErasePending(steps: seq<Step>) {
    exists k :: 0 <= k < |steps| && steps[k].Erase? && forall j :: k < j < |steps| ==> !steps[j].EnsureRelease?
  }

  lemma OnlyEraseLeavesUnsent(w: World, step: Step)
    requires Inv(w) && Allowed(w, step) && Next(w, step).unsent
    ensures !step.EnsureRelease? && (w.unsent || step.Erase?)
  {
  }

  lemma PendingExtends(steps: seq<Step>)
    requires steps != [] && !steps[|steps| - 1].EnsureRelease?
    requires steps[|steps| - 1].Erase? || ErasePending(steps[..|steps| - 1])
    ensures ErasePending(steps)
  {
    var n := |steps| - 1;
    if !steps[n].Erase? {
      var before := steps[..n];
      var k :| 0 <= k < n && before[k].Erase? && forall j :: k < j < n ==> !before[j].EnsureRelease?;
      assert steps[k].Erase? && forall j :: k < j < n ==> steps[j] == before[j];
    }
  }

  lemma {:induction false} UnsentMeansErasePending(cpu: Image, texture: Image, steps: seq<Step>)
    requires WellSized(cpu) && AllowedRun(Initial(cpu, texture), steps)
    requires Run(Initial(cpu, texture), steps).unsent
    ensures ErasePending(steps)
  {
    var n := |steps| - 1;
    RunKeepsInv(cpu, texture, steps[..n]);
    OnlyEraseLeavesUnsent(Run(Initial(cpu, texture), steps[..n]), steps[n]);
    if !steps[n].Erase? {
      UnsentMeansErasePending(cpu, texture, steps[..n]);
    }
    PendingExtends(steps);
  }

  /** Every frame a run shows equals the CPU surface, unless an erase is still waiting for
      the release of its DC. */
  lemma FramesAreFaithful(cpu: Image, texture: Image, steps: seq<Step>, blank: seq<Argb>)
    requires WellSized(cpu) && AllowedRun(Initial(cpu, texture), steps)
    requires Renders(Run(Initial(cpu, texture), steps))
    ensures var w := Run(Initial(cpu, texture), steps);
      !ErasePending(steps) || FullDue(w) ==> Next(w, Render(blank)).target.texture == w.cpu
  {
    var w := Run(Initial(cpu, texture), steps);
    RunKeepsInv(cpu, texture, steps);
    if w.unsent {
      UnsentMeansErasePending(cpu, texture, steps);
    }
    RenderKeepsInv(w, blank);
  }

  // ----- where a single frame is not faithful

  lemma SizePositive(img: Image)
    requires WellSized(img)
    ensures |img.px| > 0
  {
    var last := Idx(img.w, img.h, 0, 0);
  }

  /** Right after an erase that nothing else covers, a render still shows the old pixels: the
      frame is right exactly when a full upload was due or the erase changed nothing. */
  lemma RenderAfterErase(w: World, after: Image, blank: seq<Argb>)
    requires Inv(w) && Allowed(w, Erase(after)) && !w.unsent && w.sync.dcCount == 0
    ensures var erased := Next(Next(w, Erase(after)), Publish);
      Next(erased, Render(blank)).target.texture == erased.cpu <==> FullDue(w) || after == w.cpu
  {
    assert w.sync.ops + [] == w.sync.ops;
    SizePositive(after);
  }

  /** A drawing call can be overtaken by a render between painting and queueing, when it draws
      outside any DC or the render looked at the DC count before.  What the next render shows
      is right exactly when the target and the surface agreed on whether a full upload was due,
      or when applying the command once more changes nothing. */
  lemma RenderBetweenPaintAndQueue(w: World, effect: Image -> Image, blank: seq<Argb>)
    requires Inv(w) && w.owed.Settled? && w.sync.hasContent && !w.unsent
    requires WellSized(effect(w.cpu)) && SameSize(effect(w.cpu), w.cpu)
    ensures var end := Run(w, Overtaken(w, effect, blank));
      && end.cpu == effect(w.cpu)
      && (end.target.texture == end.cpu <==>
          (TargetDue(w) <==> w.sync.needsFull) || effect(effect(w.cpu)) == effect(w.cpu))
  {
    var op := Draw(effect);
    DrawOnce(effect, w.cpu);
    DrawOnce(effect, effect(w.cpu));
    var w1 := Next(w, Paint(effect(w.cpu), [op]));
    SizePositive(w1.cpu);
    assert w.sync.ops + [] == w.sync.ops;
    var w2 := Next(w1, RenderLate(blank));
    var w3 := Next(w2, Publish);
    assert [op][1..] == [] && w2.sync.ops == [] && [] + [op] == [op];
    var w4 := Next(w3, Publish);
    RunFive(w, Paint(effect(w.cpu), [op]), RenderLate(blank), Publish, Publish, RenderLate(blank));
  }

  function Overtaken(w: World, effect: Image -> Image, blank: seq<Argb>): seq<Step> {
    [Paint(effect(w.cpu), [Draw(effect)]), RenderLate(blank), Publish, Publish, RenderLate(blank)]
  }

  lemma DrawOnce(effect: Image -> Image, img: Image)
    ensures Replay([Draw(effect)], img) == effect(img)
  {
    ReplayAppend([], Draw(effect), img);
    assert [] + [Draw(effect)] == [Draw(effect)];
  }

  lemma RunFive(w: World, s1: Step, s2: Step, s3: Step, s4: Step, s5: Step)
    ensures Run(w, [s1, s2, s3, s4, s5]) == Next(Next(Next(Next(Next(w, s1), s2), s3), s4), s5)
  {
    assert [s1, s2, s3, s4, s5][..4] == [s1, s2, s3, s4];
    assert [s1, s2, s3, s4][..3] == [s1, s2, s3];
    assert [s1, s2, s3][..2] == [s1, s2];
    assert [s1, s2][..1] == [s1];
    assert [s1][..0] == [];
    assert Run(w, [s1]) == Next(w, s1);
    assert Run(w, [s1, s2, s3]) == Next(Run(w, [s1, s2]), s3);
  }

  // ----- both failures happen

  /** Opens a DC, draws one command that changes nothing, queues it and closes the DC. */
  function FirstDraw(cpu: Image): seq<Step> {
    [BeginDc] + [Paint(cpu, [Draw(Same)])] + [Publish] + [Publish] + [EndDc]
  }

  function Same(img: Image): Image { img }

  /** After the first draw of any window the target still wants a full upload and the surface
      does not: the state in which an overtaken command is applied twice. */
  lemma FirstDrawReached(cpu: Image, texture: Image)
    requires WellSized(cpu)
    ensures var w := Run(Initial(cpu, texture), FirstDraw(cpu));
      && AllowedRun(Initial(cpu, texture), FirstDraw(cpu))
      && w == World(cpu, Sync(false, [Draw(Same)], true, 0, true), Target(true, texture), Settled, false)
  {
    var w0, op := Initial(cpu, texture), Draw(Same);
    DrawOnce(Same, cpu);
    assert [op][1..] == [] && [] + [op] == [op] && [] + [BeginDc] == [BeginDc];
    RunOn(w0, [], BeginDc);
    var w1 := World(cpu, Sync(true, [], false, 1, false), Target(true, texture), Settled, false);
    assert Run(w0, [BeginDc]) == w1;
    var painted := [BeginDc] + [Paint(cpu, [op])];
    RunOn(w0, [BeginDc], Paint(cpu, [op]));
    assert Run(w0, painted) == w1.(owed := Queueing([op]));
    RunOn(w0, painted, Publish);
    assert Run(w0, painted + [Publish]) == w1.(owed := Queueing([]), sync := Sync(false, [op], true, 1, true));
    RunOn(w0, painted + [Publish], Publish);
    RunOn(w0, painted + [Publish] + [Publish], EndDc);
  }

  /** The first command drawn after that and overtaken by a render shows up twice. */
  lemma DoubleDrawHappens(cpu: Image, texture: Image, effect: Image -> Image, blank: seq<Argb>)
    requires WellSized(cpu) && WellSized(effect(cpu)) && SameSize(effect(cpu), cpu)
    requires effect(effect(cpu)) != effect(cpu)
    ensures var w := Run(Initial(cpu, texture), FirstDraw(cpu));
      && AllowedRun(Initial(cpu, texture), FirstDraw(cpu)) && w.sync.dcCount == 0
      && Run(w, Overtaken(w, effect, blank)).target.texture != Run(w, Overtaken(w, effect, blank)).cpu
  {
    FirstDrawReached(cpu, texture);
    RunKeepsInv(cpu, texture, FirstDraw(cpu));
    var w := Run(Initial(cpu, texture), FirstDraw(cpu));
    RenderBetweenPaintAndQueue(w, effect, blank);
  }

  /** Once a window has been drawn and shown, any erase that changes it leaves a stale frame. */
  lemma StaleFrameHappens(cpu: Image, texture: Image, after: Image, blank: seq<Argb>)
    requires WellSized(cpu) && WellSized(after) && SameSize(after, cpu) && after != cpu
    ensures var shown := FirstDraw(cpu) + [Render(blank)];
      var steps := shown + [Erase(after)] + [Publish];
      var w := Run(Initial(cpu, texture), steps);
      && AllowedRun(Initial(cpu, texture), steps) && Renders(w)
      && Next(w, Render(blank)).target.texture == cpu && w.cpu == after
  {
    var w0 := Initial(cpu, texture);
    FirstDrawReached(cpu, texture);
    SizePositive(cpu);
    SizePositive(after);
    RunOn(w0, FirstDraw(cpu), Render(blank));
    var shown := FirstDraw(cpu) + [Render(blank)];
    RunOn(w0, shown, Erase(after));
    RunOn(w0, shown + [Erase(after)], Publish);
  }

  // ----- what the release sync is for

  /** Painting of any kind is still to be reported. */
  predicate Owes(w: World) {
    w.owed.Dirtying? || w.owed.Noting? || (w.owed.Queueing? && w.owed.ops != [])
  }

  /** No discipline but this: a drawing call finishes reporting before the next begins, and
      reports something whenever it changed a pixel.  What it queues need not match what it
      painted, no DC need be open, and renders may act on an outdated DC count. */
  ghost predicate Loose(w: World, step: Step) {
    match step
    case Paint(after, ops) => !Owes(w) && WellSized(after) && SameSize(after, w.cpu) && (ops != [] || after == w.cpu)
    case PaintAll(after) => !Owes(w) && WellSized(after) && SameSize(after, w.cpu)
    case Erase(after) => !Owes(w) && WellSized(after) && SameSize(after, w.cpu)
    case Resize(after) => WellSized(after)
    case _ => true
  }

  ghost predicate LooseRun(w: World, steps: seq<Step>) {
    steps != [] ==>
      var n := |steps| - 1;
      LooseRun(w, steps[..n]) && Loose(Run(w, steps[..n]), steps[n])
  }

  lemma AllowedIsLoose(w: World, step: Step)
    requires Allowed(w, step)
    ensures Loose(w, step)
  {
  }

  /** Whatever was drawn since the last faithful frame, something still remembers it. */
  ghost predicate Remembered(w: World) {
    && WellSized(w.cpu)
    && (!w.target.needsFull ==> w.sync.hasContent)
    && (|w.sync.ops| > 0 ==> w.sync.needsRelease)
    && (FullDue(w) || w.sync.needsRelease || Owes(w) || w.target.texture == w.cpu)
  }

  lemma StepRemembers(w: World, step: Step)
    requires Remembered(w) && Loose(w, step)
    ensures Remembered(Next(w, step))
  {
  }

  lemma {:induction false} RunRemembers(cpu: Image, texture: Image, steps: seq<Step>)
    requires WellSized(cpu) && LooseRun(Initial(cpu, texture), steps)
    ensures Remembered(Run(Initial(cpu, texture), steps))
  {
    if steps != [] {
      RunRemembers(cpu, texture, steps[..|steps| - 1]);
      StepRemembers(Run(Initial(cpu, texture), steps[..|steps| - 1]), steps[|steps| - 1]);
    }
  }

  /** However drawing and rendering interleave and whatever the queued commands do, once every
      call has reported its painting and a DC has been released, the next frame is the CPU
      surface. */
  lemma ReleasedFrameIsFaithful(cpu: Image, texture: Image, steps: seq<Step>, blank: seq<Argb>)
    requires WellSized(cpu) && LooseRun(Initial(cpu, texture), steps)
    requires !Owes(Run(Initial(cpu, texture), steps))
    ensures RightOnceReleased(Run(Initial(cpu, texture), steps), blank)
  {
    RunRemembers(cpu, texture, steps);
    ReleasedFrame(Run(Initial(cpu, texture), steps), blank);
  }

  /** After the release of a DC the next frame, timely or late, is the CPU surface. */
  predicate RightOnceReleased(w: World, blank: seq<Argb>) {
    var released := Next(w, EnsureRelease);
    && (Renders(released) ==> Next(released, Render(blank)).target.texture == released.cpu)
    && (Shows(released) ==> Next(released, RenderLate(blank)).target.texture == released.cpu)
  }

  lemma ReleasedFrame(w: World, blank: seq<Argb>)
    requires Remembered(w) && !Owes(w)
    ensures RightOnceReleased(w, blank)
  {
  }
}
