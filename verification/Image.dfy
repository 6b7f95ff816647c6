/** Images, copied rectangles, and the operations a queue replays on an image. */
module Images {
  import opened Arith
  import opened Common
  import opened Color
  import opened Region
  import opened Raster

  // ----- images and the operations replayed on them

  datatype Image = Image(w: nat, h: nat, px: seq<Argb>)

  predicate WellSized(img: Image) {
    img.w >= 1 && img.h >= 1 && |img.px| == img.w * img.h
  }

  predicate SameSize(a: Image, b: Image) {
    a.w == b.w && a.h == b.h
  }

  /** A copied rectangle of pixels, row by row. */
  datatype Update = Update(x: nat, y: nat, w: nat, h: nat, pixels: seq<Argb>)

  predicate Fits(u: Update, img: Image) {
    && WellSized(img) && u.w >= 1 && u.h >= 1
    && u.x + u.w <= img.w && u.y + u.h <= img.h && |u.pixels| == u.w * u.h
  }

  /** A GPU draw command stands for the effect it has on an image; the same effect is
      assumed of the CPU drawing it accompanies. */
  datatype Op = Upload(update: Update) | Draw(effect: Image -> Image)

  function ApplyUpload(img: Image, u: Update): Image
    requires Fits(u, img)
  {
    Image(img.w, img.h, seq(img.w * img.h, i requires 0 <= i < img.w * img.h =>
      FlatIndex(img.w, img.h, i);
      var x, y := i % img.w, i / img.w;
      if u.x <= x < u.x + u.w && u.y <= y < u.y + u.h then u.pixels[Idx(u.w, u.h, x - u.x, y - u.y)] else img.px[i]))
  }

  function Apply(op: Op, img: Image): Image {
    match op
    case Upload(u) => if Fits(u, img) then ApplyUpload(img, u) else img
    case Draw(effect) => effect(img)
  }

  function Replay(ops: seq<Op>, img: Image): Image {
    if ops == [] then img else Apply(ops[|ops| - 1], Replay(ops[..|ops| - 1], img))
  }

  lemma ReplayAppend(ops: seq<Op>, op: Op, img: Image)
    ensures Replay(ops + [op], img) == Apply(op, Replay(ops, img))
  {
    assert (ops + [op])[..|ops|] == ops;
  }

  // ----- copying a rectangle out of the CPU pixels

  /** The rectangle clipped to the image, as the queueing helper clips it. */
  function ClipTo(img: Image, r: Rect): Rect {
    Rect(Min(Max(r.left, 0), img.w), Min(Max(r.top, 0), img.h), Min(Max(r.right, 0), img.w),
        Min(Max(r.bottom, 0), img.h))
  }

  /** Clipping keeps exactly the points of the rectangle that lie in the image. */
  lemma ClipPoints(img: Image, r: Rect, x: int, y: int)
    ensures InRect(ClipTo(img, r), x, y) <==> InRect(r, x, y) && 0 <= x < img.w && 0 <= y < img.h
  {
  }

  function Pixel(img: Image, x: nat, y: nat): Argb
    requires WellSized(img) && x < img.w && y < img.h
  {
    img.px[Idx(img.w, img.h, x, y)]
  }

  /** `u` holds exactly the pixels of `img` under the clipped rectangle. */
  ghost predicate IsCopy(u: Update, img: Image, r: Rect) {
    && Fits(u, img)
    && r == Rect(u.x, u.y, u.x + u.w, u.y + u.h)
    && forall x: nat, y: nat | x < u.w && y < u.h ::
         u.pixels[Idx(u.w, u.h, x, y)] == Pixel(img, u.x + x, u.y + y)
  }

  /** `u` covers exactly the points of `img` under `r`, each with its pixel. */
  ghost predicate CopiesPoints(u: Update, img: Image, r: Rect) {
    && Fits(u, img)
    && (forall x, y :: InRect(Rect(u.x, u.y, u.x + u.w, u.y + u.h), x, y) <==>
                       InRect(r, x, y) && 0 <= x < img.w && 0 <= y < img.h)
    && forall x: nat, y: nat | x < u.w && y < u.h ::
         u.pixels[Idx(u.w, u.h, x, y)] == Pixel(img, u.x + x, u.y + y)
  }

  predicate Inside(img: Image, left: nat, top: nat, w: nat, h: nat) {
    WellSized(img) && w >= 1 && h >= 1 && left + w <= img.w && top + h <= img.h
  }

  function Row(img: Image, left: nat, y: nat, w: nat): (row: seq<Argb>)
    requires WellSized(img) && left + w <= img.w && w >= 1 && y < img.h
    ensures |row| == w
    ensures forall x: nat | x < w :: row[x] == Pixel(img, left + x, y)
  {
    var start := Idx(img.w, img.h, left, y);
    assert Idx(img.w, img.h, left + w - 1, y) == start + w - 1;
    img.px[start..start + w]
  }

  function Rows(img: Image, left: nat, top: nat, w: nat, n: nat): (rows: seq<seq<Argb>>)
    requires n >= 1 ==> Inside(img, left, top, w, n)
    ensures |rows| == n
    ensures forall y: nat | y < n :: rows[y] == Row(img, left, top + y, w)
  {
    seq(n, y requires 0 <= y < n => Row(img, left, top + y, w))
  }

  function Flatten(rows: seq<seq<Argb>>): seq<Argb> {
    if rows == [] then [] else Flatten(rows[..|rows| - 1]) + rows[|rows| - 1]
  }

  lemma NextRow(n: nat, w: nat)
    ensures (n + 1) * w == n * w + w
  {
  }

  lemma {:induction false} FlattenAt(rows: seq<seq<Argb>>, w: nat, x: nat, y: nat)
    requires forall k :: 0 <= k < |rows| ==> |rows[k]| == w
    ensures |Flatten(rows)| == |rows| * w
    ensures x < w && y < |rows| ==>
              Idx(w, |rows|, x, y) < |Flatten(rows)| && Flatten(rows)[Idx(w, |rows|, x, y)] == rows[y][x]
  {
    if rows != [] {
      var n := |rows| - 1;
      FlattenAt(rows[..n], w, x, y);
      NextRow(n, w);
    }
  }

  function CopyOf(img: Image, left: nat, top: nat, w: nat, h: nat): Update
    requires Inside(img, left, top, w, h)
  {
    Update(left, top, w, h, Flatten(Rows(img, left, top, w, h)))
  }

  lemma CopyOfIsCopy(img: Image, u: Update)
    requires Inside(img, u.x, u.y, u.w, u.h) && u == CopyOf(img, u.x, u.y, u.w, u.h)
    ensures IsCopy(u, img, Rect(u.x, u.y, u.x + u.w, u.y + u.h))
  {
    CopiedPixel(img, u, 0, 0);
    forall x: nat, y: nat | x < u.w && y < u.h
      ensures u.pixels[Idx(u.w, u.h, x, y)] == Pixel(img, u.x + x, u.y + y)
    {
      CopiedPixel(img, u, x, y);
    }
  }

  lemma CopyOfClip(img: Image, r: Rect, left: nat, top: nat, w: nat, h: nat)
    requires Inside(img, left, top, w, h) && ClipTo(img, r) == Rect(left, top, left + w, top + h)
    ensures CopiesPoints(CopyOf(img, left, top, w, h), img, r)
  {
    var u := CopyOf(img, left, top, w, h);
    CopyOfIsCopy(img, u);
    CopyCovers(img, r, u);
  }

  lemma CopyCovers(img: Image, r: Rect, u: Update)
    requires WellSized(img) && IsCopy(u, img, ClipTo(img, r))
    ensures CopiesPoints(u, img, r)
  {
    forall x, y
      ensures InRect(Rect(u.x, u.y, u.x + u.w, u.y + u.h), x, y) <==>
              InRect(r, x, y) && 0 <= x < img.w && 0 <= y < img.h
    {
      ClipPoints(img, r, x, y);
    }
  }

  ghost predicate MeetsImage(r: Rect, img: Image) {
    exists x, y :: InRect(r, x, y) && 0 <= x < img.w && 0 <= y < img.h
  }

  lemma ClipMeets(img: Image, r: Rect)
    ensures MeetsImage(r, img) <==> Nondegenerate(ClipTo(img, r))
  {
    var c := ClipTo(img, r);
    ClipPoints(img, r, c.left, c.top);
    assert Nondegenerate(c) ==> InRect(c, c.left, c.top);
    if MeetsImage(r, img) {
      var x, y :| InRect(r, x, y) && 0 <= x < img.w && 0 <= y < img.h;
      ClipPoints(img, r, x, y);
    }
  }

  lemma CopiedPixel(img: Image, u: Update, x: nat, y: nat)
    requires Inside(img, u.x, u.y, u.w, u.h) && x < u.w && y < u.h
    requires u.pixels == Flatten(Rows(img, u.x, u.y, u.w, u.h))
    ensures |u.pixels| == u.w * u.h
    ensures u.pixels[Idx(u.w, u.h, x, y)] == Pixel(img, u.x + x, u.y + y)
  {
    FlattenAt(Rows(img, u.x, u.y, u.w, u.h), u.w, x, y);
    assert u.h * u.w == u.w * u.h;
  }

  method CopyRect(img: Image, left: nat, top: nat, w: nat, h: nat) returns (u: Update)
    requires Inside(img, left, top, w, h)
    ensures u == CopyOf(img, left, top, w, h)
  {
    var pixels := [];
    ghost var rows := Rows(img, left, top, w, h);
    for y := 0 to h
      invariant pixels == Flatten(rows[..y])
    {
      pixels := pixels + Row(img, left, top + y, w);
      assert rows[..y + 1][..y] == rows[..y];
    }
    assert rows[..h] == rows;
    u := Update(left, top, w, h, pixels);
  }

  ghost predicate ChangedOnlyIn(before: Image, after: Image, r: Rect)
    requires WellSized(before) && WellSized(after) && SameSize(before, after)
  {
    forall x: nat, y: nat | x < before.w && y < before.h && !InRect(r, x, y) ::
        Pixel(after, x, y) == Pixel(before, x, y)
  }

  /** Uploading the copy onto the old pixels reproduces the new ones, when only pixels under
      the rectangle have changed. */
  lemma UploadCatchesUp(before: Image, after: Image, r: Rect, u: Update)
    requires WellSized(before) && WellSized(after) && SameSize(before, after)
    requires IsCopy(u, after, r)
    requires ChangedOnlyIn(before, after, r)
    ensures Apply(Upload(u), before) == after
  {
    var img := ApplyUpload(before, u);
    forall i | 0 <= i < |img.px| ensures img.px[i] == after.px[i] {
      FlatIndex(before.w, before.h, i);
      assert Pixel(after, i % before.w, i / before.w) == after.px[i]
          && Pixel(before, i % before.w, i / before.w) == before.px[i];
    }
  }

  lemma {:induction false} ReplayConcat(a: seq<Op>, b: seq<Op>, img: Image)
    ensures Replay(a + b, img) == Replay(b, Replay(a, img))
  {
    if b == [] {
      assert a + b == a;
    } else {
      assert (a + b)[..|a + b| - 1] == a + b[..|b| - 1];
      ReplayConcat(a, b[..|b| - 1], img);
    }
  }
}
