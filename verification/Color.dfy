/** 32-bit `0xAARRGGBB` colours as four bytes, and source-over blending. */
module Color {
  import opened Arith
  import opened Common

  datatype Argb = Argb(a: byte, r: byte, g: byte, b: byte)

  /** Quotient rounded to the nearest integer, halves upward. */
  function RoundDiv(n: nat, d: nat): (q: nat)
    requires d > 0
    ensures 2 * n - d <= 2 * (q * d) <= 2 * n + d
  {
    var q := (n + d / 2) / d;
    assert (n + d / 2) - d < q * d <= n + d / 2;
    q
  }

  function BlendChannel(src: byte, srcA: byte, dst: byte, dstA: byte, outA: nat): byte
    requires outA > 0
  {
    MulNat(src, srcA);
    MulNat(dst, dstA);
    MulNat(dst * dstA, 255 - srcA);
    var fromSrc: nat := src * srcA;
    var fromDst: nat := dst * dstA;
    var rest: nat := fromDst * (255 - srcA);
    var q := RoundDiv(fromSrc * 255 + rest, outA * 255);
    if q > 255 then 255 else q
  }

  function OutAlpha(dstA: byte, srcA: byte): int {
    srcA + (dstA * (255 - srcA) + 127) / 255
  }

  lemma OutAlphaInRange(dstA: byte, srcA: byte)
    ensures srcA <= OutAlpha(dstA, srcA) <= 255
    ensures OutAlpha(255, srcA) == 255
  {
    var inv: nat := 255 - srcA;
    MulNat(dstA, inv);
    MulMonotone(dstA, 255, inv);
  }

  function BlendSourceOver(dst: Argb, src: Argb): Argb {
    if src.a == 0 then dst
    else if src.a == 255 then src
    else
      var outA := OutAlpha(dst.a, src.a);
      OutAlphaInRange(dst.a, src.a);
      Argb(outA,
           BlendChannel(src.r, src.a, dst.r, dst.a, outA),
           BlendChannel(src.g, src.a, dst.g, dst.a, outA),
           BlendChannel(src.b, src.a, dst.b, dst.a, outA))
  }

  /** Over an opaque pixel every channel is the alpha-weighted average, rounded to the
      nearest integer, so it never leaves the range between the two inputs. */
  lemma OpaqueChannel(src: byte, srcA: byte, dst: byte)
    ensures var c := BlendChannel(src, srcA, dst, 255, 255);
      && -255 <= 2 * (src * srcA + dst * (255 - srcA) - 255 * c) <= 255
      && (src <= dst ==> src <= c <= dst) && (dst <= src ==> dst <= c <= src)
  {
    var mix := src * srcA + dst * (255 - srcA);
    assert dst * 255 * (255 - srcA) == dst * (255 - srcA) * 255;
    assert mix - src * 255 == (dst - src) * (255 - srcA);
    assert mix - dst * 255 == (src - dst) * srcA;
    SameSign(dst - src, 255 - srcA);
    SameSign(src - dst, srcA);
    var q := RoundDiv(mix * 255, 255 * 255);
  }

  lemma SameSign(x: int, w: nat)
    ensures (x >= 0 ==> x * w >= 0) && (x <= 0 ==> x * w <= 0)
  {
  }

  /** An opaque surface stays opaque whatever is blended onto it. */
  lemma OpaqueStaysOpaque(dst: Argb, src: Argb)
    requires dst.a == 255
    ensures BlendSourceOver(dst, src).a == 255
  {
    OutAlphaInRange(dst.a, src.a);
  }

  /** `c` is the average of two channels, weighted `srcA` to `255 - srcA`, to the nearest integer. */
  predicate RoundedMix(src: byte, srcA: byte, dst: byte, c: byte) {
    -255 <= 2 * (src * srcA + dst * (255 - srcA) - 255 * c) <= 255
  }

  lemma RoundedMixUnique(src: byte, srcA: byte, dst: byte, c: byte, d: byte)
    requires RoundedMix(src, srcA, dst, c) && RoundedMix(src, srcA, dst, d)
    ensures c == d
  {
    var mix := src * srcA + dst * (255 - srcA);
    assert -255 <= 2 * (mix - 255 * c) <= 255 && -255 <= 2 * (mix - 255 * d) <= 255;
  }

  /** What blending leaves in one channel of an opaque pixel, shortcuts included. */
  function OpaqueMix(src: byte, srcA: byte, dst: byte): (c: byte)
    ensures RoundedMix(src, srcA, dst, c)
  {
    if srcA == 0 then dst
    else if srcA == 255 then src
    else
      OpaqueChannel(src, srcA, dst);
      BlendChannel(src, srcA, dst, 255, 255)
  }

  /** Over an opaque pixel, blending is the rounded weighted average on each channel and leaves
      the pixel opaque. */
  lemma OpaqueBlend(dst: Argb, src: Argb)
    requires dst.a == 255
    ensures BlendSourceOver(dst, src) ==
            Argb(255, OpaqueMix(src.r, src.a, dst.r), OpaqueMix(src.g, src.a, dst.g), OpaqueMix(src.b, src.a, dst.b))
  {
    OpaqueStaysOpaque(dst, src);
  }

  // ----- onto pixels that are not opaque

  /** Onto a clear pixel the source colour arrives unchanged. */
  lemma OntoClear(dst: Argb, src: Argb)
    requires dst.a == 0 && src.a > 0
    ensures BlendSourceOver(dst, src) == src
  {
    if src.a < 255 {
      assert OutAlpha(0, src.a) == src.a;
      ClearChannel(src.r, src.a, dst.r);
      ClearChannel(src.g, src.a, dst.g);
      ClearChannel(src.b, src.a, dst.b);
    }
  }

  lemma ClearChannel(src: byte, srcA: byte, dst: byte)
    requires srcA > 0
    ensures BlendChannel(src, srcA, dst, 0, srcA) == src
  {
    assert src * srcA * 255 == src * (srcA * 255);
    QuotientUnique(src * srcA * 255 + srcA * 255 / 2, srcA * 255, src, srcA * 255 / 2);
  }

  /** The alpha left over is the source's plus what the source lets through of the old one, to
      the nearest integer. */
  lemma AlphaMix(dst: Argb, src: Argb)
    ensures var a := BlendSourceOver(dst, src).a; -255 <= 2 * (255 * src.a + dst.a * (255 - src.a) - 255 * a) <= 255
  {
    if 0 < src.a < 255 {
      var through := dst.a * (255 - src.a);
      MulNat(dst.a, 255 - src.a);
      assert through + 127 - 254 <= 255 * ((through + 127) / 255) <= through + 127;
    }
  }

  /** Every channel is the mean of both colours weighted by the share each has in the new alpha,
      to the nearest integer and at most 255. */
  predicate WeightedMean(src: byte, srcA: byte, dst: byte, dstA: byte, outA: byte, c: byte) {
    var total := 255 * outA;
    var n := 255 * (src * srcA) + dst * dstA * (255 - srcA);
    2 * c * total <= 2 * n + total && (c == 255 || 2 * n <= 2 * c * total + total)
  }

  lemma ChannelMix(src: byte, srcA: byte, dst: byte, dstA: byte, outA: byte)
    requires outA > 0
    ensures WeightedMean(src, srcA, dst, dstA, outA, BlendChannel(src, srcA, dst, dstA, outA))
  {
    MulNat(src, srcA);
    MulNat(dst, dstA);
    MulNat(dst * dstA, 255 - srcA);
    var n := src * srcA * 255 + dst * dstA * (255 - srcA);
    var q := RoundDiv(n, outA * 255);
    if q > 255 {
      MulMonotone(255, q, outA * 255);
    }
  }

  lemma BlendMixes(dst: Argb, src: Argb)
    requires 0 < src.a < 255
    ensures var c := BlendSourceOver(dst, src);
      && WeightedMean(src.r, src.a, dst.r, dst.a, c.a, c.r)
      && WeightedMean(src.g, src.a, dst.g, dst.a, c.a, c.g)
      && WeightedMean(src.b, src.a, dst.b, dst.a, c.a, c.b)
  {
    OutAlphaInRange(dst.a, src.a);
    ChannelMix(src.r, src.a, dst.r, dst.a, OutAlpha(dst.a, src.a));
    ChannelMix(src.g, src.a, dst.g, dst.a, OutAlpha(dst.a, src.a));
    ChannelMix(src.b, src.a, dst.b, dst.a, OutAlpha(dst.a, src.a));
  }

  /** A solid colour replaces, a clear one changes nothing. */
  lemma SolidAndClear(dst: Argb, src: Argb)
    ensures src.a == 255 ==> BlendSourceOver(dst, src) == src
    ensures src.a == 0 ==> BlendSourceOver(dst, src) == dst
  {
  }
}
