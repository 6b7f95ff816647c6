/** The pixel codec of device-independent bitmaps: one cell of 1, 4, 8, 16, 24 or 32 bits
to and from a colour. */
module Dib {
  import opened Arith
  import opened Bits
  import opened Color
  import opened Common

  /** Bit-field masks as the header gives them; zero when absent. */
  datatype Masks = Masks(red: nat, green: nat, blue: nat, alpha: nat)

  datatype Format = Format(bitCount: nat, palette: seq<Argb>, masks: Masks)

  predicate Supported(bitCount: nat) {
    bitCount == 1 || bitCount == 4 || bitCount == 8 || bitCount == 16 || bitCount == 24 || bitCount == 32
  }

  function OpaqueRgb(c: Argb): Argb { c.(a := 255) }

  function Grey(v: byte): Argb { Argb(255, v, v, v) }

  predicate SameRgb(a: Argb, b: Argb) { a.r == b.r && a.g == b.g && a.b == b.b }

  // ----- one masked channel

  function DecodeComponent(pixel: nat, mask: nat): nat {
    if mask == 0 then 0
    else
      var one := Pow2(TrailingZeros(mask));
      var value: nat := And(pixel, mask) / one;
      var max: nat := mask / one;
      if max == 0 then 0 else ScaleUp(value, max)
  }

  function ScaleUp(value: nat, max: nat): nat
    requires max > 0
  {
    (value * 255 + max / 2) / max
  }

  function EncodeComponent(value: nat, mask: nat): nat {
    if mask == 0 then 0
    else
      var one := Pow2(TrailingZeros(mask));
      var max := mask / one;
      (value * max + 127) / 255 * one
  }

  /** Scaling 0..max up to 0..255 and back is the identity when max is at most 255. */
  lemma ScaleRoundTrip(v: nat, max: nat)
    requires v <= max && 0 < max <= 255
    ensures var d := ScaleUp(v, max); d <= 255 && (d * max + 127) / 255 == v
  {
    var n := v * 255 + max / 2;
    var d := n / max;
    assert n == d * max + n % max;
    QuotientUnique(d * max + 127, 255, v, d * max + 127 - v * 255);
    assert v * 255 <= max * 255;
    if d >= 256 {
      MulGap(255, d, max);
    }
  }

  /** A field is scaled to the nearest of the 256 levels, and a byte to the nearest level of the field. */
  lemma NearestLevels(v: nat, max: nat, c: byte)
    requires max > 0
    ensures 0 - max <= 2 * (ScaleUp(v, max) * max - 255 * v) <= max
    ensures var e := (c * max + 127) / 255; -127 <= 255 * e - c * max <= 127
  {
    var n := v * 255 + max / 2;
    assert n == n / max * max + n % max;
  }

  /** The level a byte is stored as, shifted to the place of the mask. */
  lemma EncodedLevel(value: byte, mask: nat, one: nat, max: nat)
    requires mask > 0 && one == Pow2(TrailingZeros(mask)) && max == mask / one
    ensures var e := EncodeComponent(value, mask) / one;
      EncodeComponent(value, mask) == e * one && -127 <= 255 * e - value * max <= 127
  {
    OddAtBottom(mask);
    NearestLevels(0, max, value);
    MulNat(value, max);
    var e: nat := (value * max + 127) / 255;
    QuotientUnique(e * one, one, e, 0);
    EncodeAs(value, mask, one, max);
  }

  lemma EncodeAs(value: nat, mask: nat, one: nat, max: nat)
    requires mask > 0 && one == Pow2(TrailingZeros(mask)) && max == mask / one
    ensures EncodeComponent(value, mask) == (value * max + 127) / 255 * one
  {
  }

  lemma ComponentRange(pixel: nat, mask: nat)
    ensures DecodeComponent(pixel, mask) <= 255
  {
    if mask > 0 {
      FieldShift(pixel, mask);
      OddAtBottom(mask);
      ScaleRange(And(pixel, mask) / Pow2(TrailingZeros(mask)), mask / Pow2(TrailingZeros(mask)));
    }
  }

  lemma ScaleRange(v: nat, max: nat)
    requires v <= max && 0 < max
    ensures ScaleUp(v, max) <= 255
  {
    var d := ScaleUp(v, max);
    assert v * 255 <= max * 255;
    if d >= 256 {
      MulGap(255, d, max);
    }
  }

  /** A field of at most eight bits comes back bit for bit. */
  lemma ComponentRoundTrip(pixel: nat, mask: nat)
    requires mask > 0 ==> mask / Pow2(TrailingZeros(mask)) <= 255
    ensures EncodeComponent(DecodeComponent(pixel, mask), mask) == And(pixel, mask)
  {
    if mask > 0 {
      FieldShift(pixel, mask);
      OddAtBottom(mask);
      ScaleRoundTrip(And(pixel, mask) / Pow2(TrailingZeros(mask)), mask / Pow2(TrailingZeros(mask)));
    }
  }

  /** A run of `width` one bits. */
  ghost predicate Contiguous(mask: nat, width: nat) {
    mask > 0 && width > 0 && mask / Pow2(TrailingZeros(mask)) == Pow2(width) - 1
  }

  /** A contiguous field survives decode and encode for every pixel exactly when it is at
      most eight bits wide; any wider one already loses its lowest bit. */
  lemma ContiguousRoundTripIff(mask: nat, width: nat)
    requires Contiguous(mask, width)
    ensures (forall p: nat :: EncodeComponent(DecodeComponent(p, mask), mask) == And(p, mask)) <==> width <= 8
  {
    assert Pow2(8) == 256 by { assert Pow2(4) == 16; }
    assert Pow2(9) == 512;
    if width <= 8 {
      Pow2Monotone(width, 8);
      forall p: nat ensures EncodeComponent(DecodeComponent(p, mask), mask) == And(p, mask) {
        ComponentRoundTrip(p, mask);
      }
    } else {
      Pow2Monotone(9, width);
      LowestBitLost(mask);
    }
  }

  lemma LowestBitLost(mask: nat)
    requires mask > 0 && mask / Pow2(TrailingZeros(mask)) >= 511
    ensures var p := Pow2(TrailingZeros(mask)); EncodeComponent(DecodeComponent(p, mask), mask) != And(p, mask)
  {
    var p, max := Pow2(TrailingZeros(mask)), mask / Pow2(TrailingZeros(mask));
    LowestBit(mask);
    QuotientUnique(p, p, 1, 0);
    QuotientUnique(255 + max / 2, max, 0, 255 + max / 2);
    assert DecodeComponent(p, mask) == 0;
    assert 0 * max + 127 == 127;
  }

  // ----- palette search

  function Score(a: Argb, b: Argb): int {
    (a.r - b.r) * (a.r - b.r) + (a.g - b.g) * (a.g - b.g) + (a.b - b.b) * (a.b - b.b)
  }

  lemma ScoreZero(a: Argb, b: Argb)
    ensures Score(a, b) >= 0 && (Score(a, b) == 0 <==> SameRgb(a, b))
  {
    Square(a.r - b.r);
    Square(a.g - b.g);
    Square(a.b - b.b);
  }

  lemma Square(x: int)
    ensures x * x >= 0 && (x * x == 0 <==> x == 0)
  {
  }

  /** The first entry, among the first `n`, with the least score. */
  function FirstNearest(palette: seq<Argb>, color: Argb, n: nat): (best: nat)
    requires n <= |palette|
    ensures n > 0 ==> best < n
    ensures n > 0 ==> forall i :: 0 <= i < n ==> Score(color, palette[best]) <= Score(color, palette[i])
    ensures n > 0 ==> forall i :: 0 <= i < best ==> Score(color, palette[best]) < Score(color, palette[i])
  {
    if n <= 1 then 0
    else
      var before := FirstNearest(palette, color, n - 1);
      if Score(color, palette[n - 1]) < Score(color, palette[before]) then n - 1 else before
  }

  function NearestIndex(palette: seq<Argb>, color: Argb): byte {
    var best := FirstNearest(palette, color, |palette|);
    if best > 255 then 255 else best
  }

  /** The sum of the squared differences of red, green and blue. */
  ghost predicate AtDistance(a: Argb, b: Argb, d: int) {
    var (dr, dg, db) := (a.r as int - b.r as int, a.g as int - b.g as int, a.b as int - b.b as int);
    d == dr * dr + dg * dg + db * db
  }

  /** `p` is at most as far from the colour as `q`, or even strictly nearer. */
  ghost predicate Nearer(p: Argb, q: Argb, color: Argb, strictly: bool) {
    forall d, e :: AtDistance(p, color, d) && AtDistance(q, color, e) ==> if strictly then d < e else d <= e
  }

  /** Index `k` is the first of the closest entries. */
  ghost predicate FirstClosest(palette: seq<Argb>, color: Argb, k: nat) {
    && k < |palette|
    && (forall i :: 0 <= i < |palette| ==> Nearer(palette[k], palette[i], color, i < k))
  }

  lemma ScoreIsDistance(a: Argb, b: Argb, d: int)
    ensures AtDistance(a, b, d) <==> d == Score(b, a)
  {
    Negated(a.r - b.r);
    Negated(a.g - b.g);
    Negated(a.b - b.b);
  }

  lemma Negated(x: int)
    ensures x * x == (-x) * (-x)
  {
  }

  lemma NearestIsClosest(palette: seq<Argb>, color: Argb) returns (k: nat)
    requires palette != []
    ensures FirstClosest(palette, color, k) && NearestIndex(palette, color) == Min(k, 255)
  {
    k := FirstNearest(palette, color, |palette|);
    forall i | 0 <= i < |palette| ensures Nearer(palette[k], palette[i], color, i < k) {
      forall d, e | AtDistance(palette[k], color, d) && AtDistance(palette[i], color, e)
        ensures if i < k then d < e else d <= e
      {
        ScoreIsDistance(palette[k], color, d);
        ScoreIsDistance(palette[i], color, e);
      }
    }
  }

  method NearestPaletteIndex(palette: seq<Argb>, color: Argb) returns (index: byte)
    ensures index == NearestIndex(palette, color)
    ensures palette == [] ==> index == 0
    ensures palette != [] ==> exists k: nat :: FirstClosest(palette, color, k) && index as int == Min(k, 255)
  {
    var bestIndex := 0;
    var bestScore := 0x7fff_ffff_ffff_ffff;
    for k := 0 to |palette|
      invariant bestIndex == FirstNearest(palette, color, k)
      invariant bestScore == if k == 0 then 0x7fff_ffff_ffff_ffff else Score(color, palette[bestIndex])
    {
      var score := Score(color, palette[k]);
      ScoreBound(color, palette[k]);
      if score < bestScore {
        bestScore := score;
        bestIndex := k;
      }
    }
    index := if bestIndex > 255 then 255 else bestIndex;
    if palette != [] {
      var k := NearestIsClosest(palette, color);
    }
  }

  lemma ScoreBound(a: Argb, b: Argb)
    ensures Score(a, b) <= 195075
  {
    SquareBound(a.r - b.r);
    SquareBound(a.g - b.g);
    SquareBound(a.b - b.b);
  }

  lemma SquareBound(x: int)
    requires -255 <= x <= 255
    ensures x * x <= 65025
  {
    assert (255 - x) * (255 + x) >= 0;
    assert (255 - x) * (255 + x) == 65025 - x * x;
  }

  /** A colour that is in the palette is found at its first occurrence. */
  lemma ExactMatch(palette: seq<Argb>, color: Argb, k: nat)
    requires k < |palette| && k <= 255 && SameRgb(palette[k], color)
    ensures NearestIndex(palette, color) <= k && SameRgb(palette[NearestIndex(palette, color)], color)
  {
    ScoreZero(color, palette[k]);
    ScoreZero(color, palette[FirstNearest(palette, color, |palette|)]);
  }

  // ----- one cell

  function EffectiveMasks(f: Format): Masks {
    if f.masks.red != 0 && f.masks.green != 0 && f.masks.blue != 0 then f.masks
    else if f.bitCount == 16 then Masks(0x7C00, 0x03E0, 0x001F, 0)
    else Masks(0x00FF_0000, 0x0000_FF00, 0x0000_00FF, 0xFF00_0000)
  }

  /** How many values a cell can hold. */
  function CellLimit(bitCount: nat): nat {
    match bitCount
    case 1 => 2
    case 4 => 16
    case 8 => 256
    case 16 => 0x1_0000
    case 24 => 0x100_0000
    case _ => 0x1_0000_0000
  }

  /** The colour of an index the palette does not have. */
  function Fallback(bitCount: nat, v: nat): Argb {
    if bitCount == 1 then if v == 0 then Grey(0) else Grey(255)
    else if bitCount == 4 then Grey(v * 17 % 256)
    else Grey(v % 256)
  }

  function DecodeMasked(m: Masks, v: nat): Argb {
    ComponentRange(v, m.red);
    ComponentRange(v, m.green);
    ComponentRange(v, m.blue);
    ComponentRange(v, m.alpha);
    Argb(if m.alpha == 0 then 255 else DecodeComponent(v, m.alpha),
         DecodeComponent(v, m.red), DecodeComponent(v, m.green), DecodeComponent(v, m.blue))
  }

  function EncodeMasked(m: Masks, c: Argb): nat {
    Or(Or(Or(EncodeComponent(c.r, m.red), EncodeComponent(c.g, m.green)), EncodeComponent(c.b, m.blue)),
       EncodeComponent(c.a, m.alpha))
  }

  function Decode(f: Format, v: nat): Argb {
    match f.bitCount
    case 1 => if v < |f.palette| then OpaqueRgb(f.palette[v]) else Fallback(1, v)
    case 4 => if v < |f.palette| then OpaqueRgb(f.palette[v]) else Fallback(4, v)
    case 8 => if v < |f.palette| then OpaqueRgb(f.palette[v]) else Fallback(8, v)
    case 16 => DecodeMasked(EffectiveMasks(f), v)
    case 24 => Argb(255, v / 0x1_0000 % 256, v / 0x100 % 256, v % 256)
    case 32 => DecodeMasked(EffectiveMasks(f), v)
    case _ => Argb(0, 0, 0, 0)
  }

  function Encode(f: Format, c: Argb): nat {
    match f.bitCount
    case 1 => if f.palette == [] then if c.r + c.g + c.b >= 0x180 then 1 else 0 else NearestIndex(f.palette, c) % 2
    case 4 => if f.palette == [] then (c.r + c.g + c.b) / 3 / 17 else NearestIndex(f.palette, c) % 16
    case 8 => if f.palette == [] then (c.r + c.g + c.b) % 256 / 3 else NearestIndex(f.palette, c)
    case 16 => EncodeMasked(EffectiveMasks(f), c) % 0x1_0000
    case 24 => c.b + c.g * 0x100 + c.r * 0x1_0000
    case 32 => EncodeMasked(EffectiveMasks(f), c) % 0x1_0000_0000
    case _ => 0
  }

  predicate Indexed(f: Format) { f.bitCount == 1 || f.bitCount == 4 || f.bitCount == 8 }

  /** An index inside the palette is its entry, opaque; outside it is a grey of its own depth. */
  lemma IndexColours(f: Format, v: nat)
    requires Indexed(f) && v < CellLimit(f.bitCount)
    ensures v < |f.palette| ==> Decode(f, v) == Argb(255, f.palette[v].r, f.palette[v].g, f.palette[v].b)
    ensures v >= |f.palette| && f.bitCount == 1 ==> Decode(f, v) == Argb(255, 255 * v, 255 * v, 255 * v)
    ensures v >= |f.palette| && f.bitCount == 4 ==> Decode(f, v) == Argb(255, 17 * v, 17 * v, 17 * v)
    ensures v >= |f.palette| && f.bitCount == 8 ==> Decode(f, v) == Argb(255, v, v, v)
  {
  }

  /** Without a palette the mean decides, out of two or sixteen levels; at eight bits the sum
      is cut to a byte first. */
  lemma GreyCells(f: Format, c: Argb)
    requires Indexed(f) && f.palette == []
    ensures var sum := c.r as int + c.g as int + c.b as int; var v := Encode(f, c);
      && (f.bitCount == 1 ==> v == if sum < 384 then 0 else 1)
      && (f.bitCount == 4 ==> 51 * v <= sum < 51 * v + 51)
      && (f.bitCount == 8 ==> exists wraps :: 0 <= wraps <= 2 && 3 * v <= sum - 256 * wraps < 3 * v + 3 && v <= 85)
  {
    var sum := c.r as int + c.g as int + c.b as int;
    var wraps := sum / 256;
    assert sum % 256 == sum - 256 * wraps;
    var v := Encode(f, c);
    assert f.bitCount == 8 ==> 0 <= wraps <= 2 && 3 * v <= sum - 256 * wraps < 3 * v + 3 && v <= 85;
  }

  /** With a palette that fits the depth, the cell is the first of the closest entries. */
  lemma PaletteCells(f: Format, c: Argb)
    requires Indexed(f) && 0 < |f.palette| <= CellLimit(f.bitCount)
    ensures FirstClosest(f.palette, c, Encode(f, c))
  {
    var k := NearestIsClosest(f.palette, c);
    assert Encode(f, c) == k;
  }

  predicate RoundTrips(f: Format, v: nat) {
    Decode(f, Encode(f, Decode(f, v))) == Decode(f, v)
  }

  predicate NarrowMask(mask: nat) {
    mask == 0 || mask / Pow2(TrailingZeros(mask)) <= 255
  }

  predicate NarrowMasks(m: Masks) {
    NarrowMask(m.red) && NarrowMask(m.green) && NarrowMask(m.blue) && NarrowMask(m.alpha)
  }

  lemma DoubleTrailing(h: nat)
    requires h > 0
    ensures TrailingZeros(2 * h) == 1 + TrailingZeros(h)
  {
    assert 2 * h / 2 == h && 2 * h % 2 == 0;
  }

  lemma DoubleProduct(k: nat, p: nat)
    ensures k * (2 * p) == 2 * (k * p)
  {
  }

  lemma {:induction false} ShiftedOdd(k: nat, s: nat)
    requires k % 2 == 1
    ensures k * Pow2(s) > 0 && TrailingZeros(k * Pow2(s)) == s && k * Pow2(s) / Pow2(s) == k
  {
    if s > 0 {
      ShiftedOdd(k, s - 1);
      DoubleProduct(k, Pow2(s - 1));
      DoubleTrailing(k * Pow2(s - 1));
    }
    QuotientUnique(k * Pow2(s), Pow2(s), k, 0);
  }

  lemma Pow2Values()
    ensures Pow2(5) == 0x20 && Pow2(8) == 0x100 && Pow2(10) == 0x400 && Pow2(16) == 0x1_0000 && Pow2(24) == 0x100_0000
  {
    assert Pow2(2) == 4 && Pow2(4) == 0x10 && Pow2(6) == 0x40;
    assert Pow2(8) == 0x100 && Pow2(10) == 0x400 && Pow2(12) == 0x1000 && Pow2(14) == 0x4000 && Pow2(16) == 0x1_0000;
    assert Pow2(18) == 0x4_0000 && Pow2(20) == 0x10_0000 && Pow2(22) == 0x40_0000;
  }

  /** The masks used when a header gives none are narrow. */
  lemma DefaultMasksNarrow()
    ensures NarrowMasks(Masks(0x7C00, 0x03E0, 0x001F, 0))
    ensures NarrowMasks(Masks(0x00FF_0000, 0x0000_FF00, 0x0000_00FF, 0xFF00_0000))
  {
    Pow2Values();
    ShiftedOdd(31, 10);
    ShiftedOdd(31, 5);
    ShiftedOdd(31, 0);
    ShiftedOdd(255, 16);
    ShiftedOdd(255, 8);
    ShiftedOdd(255, 0);
    ShiftedOdd(255, 24);
  }

  lemma FieldInside(p: nat, m: nat, y: nat)
    requires Within(And(p, m), y) && Within(y, p)
    ensures DecodeComponent(y, m) == DecodeComponent(p, m)
  {
    MaskBetween(p, m, y);
  }

  /** A cell of bit fields of at most eight bits each comes back with the same colour, whether
      or not the fields overlap, are contiguous or fill the cell. */
  lemma MaskedRoundTrip(m: Masks, p: nat)
    requires NarrowMasks(m)
    ensures var y := EncodeMasked(m, DecodeMasked(m, p)); y <= p && DecodeMasked(m, y) == DecodeMasked(m, p)
  {
    ComponentRoundTrip(p, m.red);
    ComponentRoundTrip(p, m.green);
    ComponentRoundTrip(p, m.blue);
    ComponentRoundTrip(p, m.alpha);
    var r, g, b, a := And(p, m.red), And(p, m.green), And(p, m.blue), And(p, m.alpha);
    var rg, rgb := Or(r, g), Or(Or(r, g), b);
    var y := Or(rgb, a);
    AndWithin(p, m.red); AndWithin(p, m.green); AndWithin(p, m.blue); AndWithin(p, m.alpha);
    OrWithin(r, g, p); OrWithin(rg, b, p); OrWithin(rgb, a, p);
    WithinOr(r, g); WithinOr(rg, b); WithinOr(rgb, a);
    WithinTransitive(rg, rgb, y); WithinTransitive(r, rg, y); WithinTransitive(g, rg, y); WithinTransitive(b, rgb, y);
    FieldInside(p, m.red, y); FieldInside(p, m.green, y); FieldInside(p, m.blue, y); FieldInside(p, m.alpha, y);
    AndAtMost(y, p);
    assert EncodeMasked(m, DecodeMasked(m, p)) == y;
  }

  lemma NoPaletteRoundTripIff(f: Format, v: nat)
    requires (f.bitCount == 1 || f.bitCount == 4 || f.bitCount == 8) && f.palette == [] && v < CellLimit(f.bitCount)
    ensures RoundTrips(f, v) <==> (f.bitCount == 8 ==> v <= 85)
  {
    var c := Fallback(f.bitCount, v);
    GreyNibble(v);
    GreyByte(v);
    assert Decode(f, v) == c;
    if f.bitCount == 8 {
      assert Encode(f, c) == (v + v + v) % 256 / 3;
    } else {
      assert Encode(f, c) == v;
    }
  }

  lemma GreyNibble(v: nat)
    ensures v < 16 ==> v * 17 % 256 == v * 17 && (v * 17 + v * 17 + v * 17) / 3 / 17 == v
  {
    if v < 16 {
      QuotientUnique(v * 17, 17, v, 0);
    }
  }

  /** The byte sum of a grey is cast to eight bits before it is divided. */
  lemma GreyByte(v: nat)
    requires v < 256
    ensures (v + v + v) % 256 / 3 <= 85
    ensures (v + v + v) % 256 / 3 == v <==> v <= 85
  {
  }

  lemma NearestFits(f: Format, c: Argb)
    requires Indexed(f) && 0 < |f.palette| <= CellLimit(f.bitCount)
    ensures Encode(f, c) == FirstNearest(f.palette, c, |f.palette|) < |f.palette|
    ensures Decode(f, Encode(f, c)) == OpaqueRgb(f.palette[Encode(f, c)])
  {
  }

  lemma OutsidePaletteRoundTripIff(f: Format, v: nat)
    requires (f.bitCount == 1 || f.bitCount == 4 || f.bitCount == 8) && 0 < |f.palette| <= v < CellLimit(f.bitCount)
    ensures RoundTrips(f, v) <==> exists k :: 0 <= k < |f.palette| && SameRgb(f.palette[k], Fallback(f.bitCount, v))
  {
    var c := Fallback(f.bitCount, v);
    assert Decode(f, v) == c && c.a == 255;
    NearestFits(f, c);
    var n := Encode(f, c);
    assert RoundTrips(f, v) <==> SameRgb(f.palette[n], c);
    if k :| 0 <= k < |f.palette| && SameRgb(f.palette[k], c) {
      NearestSame(f.palette, c, k);
    }
  }

  lemma NearestSame(palette: seq<Argb>, c: Argb, k: nat)
    requires k < |palette| && SameRgb(palette[k], c)
    ensures SameRgb(palette[FirstNearest(palette, c, |palette|)], c)
  {
    ScoreZero(c, palette[k]);
    ScoreZero(c, palette[FirstNearest(palette, c, |palette|)]);
  }

  lemma InsidePaletteRoundTrips(f: Format, v: nat)
    requires (f.bitCount == 1 || f.bitCount == 4 || f.bitCount == 8) && v < |f.palette| && v < CellLimit(f.bitCount)
    ensures RoundTrips(f, v)
  {
    var c := Decode(f, v);
    ExactMatch(f.palette, c, v);
    assert Encode(f, c) == NearestIndex(f.palette, c);
  }

  /** Palette formats: a cell comes back with the same colour exactly when its index is in the
      palette, or the fallback colour happens to be, or there is no palette and (at 8 bits)
      the grey is dark enough that the byte sum does not wrap. */
  lemma IndexedRoundTripIff(f: Format, v: nat)
    requires f.bitCount == 1 || f.bitCount == 4 || f.bitCount == 8
    requires v < CellLimit(f.bitCount)
    ensures RoundTrips(f, v) <==>
              || v < |f.palette|
              || (f.palette == [] && (f.bitCount == 8 ==> v <= 85))
              || (exists k :: 0 <= k < |f.palette| && SameRgb(f.palette[k], Fallback(f.bitCount, v)))
  {
    if v < |f.palette| {
      InsidePaletteRoundTrips(f, v);
    } else if f.palette == [] {
      NoPaletteRoundTripIff(f, v);
    } else {
      OutsidePaletteRoundTripIff(f, v);
    }
  }

  /** Three plain bytes always come back. */
  lemma TrueColourRoundTrips(f: Format, v: nat)
    requires f.bitCount == 24 && v < CellLimit(24)
    ensures Encode(f, Decode(f, v)) == v
  {
  }
}
