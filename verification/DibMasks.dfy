/** Bit fields of any width: disjoint contiguous masks never make a colour drift, although
masks wider than eight bits lose raw bits. */
module DibMasks {
  import opened Arith
  import opened Bits
  import opened Color
  import opened Common
  import opened Dib
  import opened DibLayout

  ghost predicate IsField(mask: nat) {
    mask == 0 || exists w: nat :: Contiguous(mask, w)
  }

  predicate Disjoint(a: nat, b: nat) {
    And(a, b) == 0
  }

  /** A mask that cannot make colours drift: at most eight bits in any pattern, or any number
      of them in one run, inside a cell of `limit` values and shared with no other mask. */
  ghost predicate Clean(mask: nat, a: nat, b: nat, c: nat, limit: nat) {
    NarrowMask(mask) || (IsField(mask) && Disjoint(mask, a) && Disjoint(mask, b) && Disjoint(mask, c) && mask < limit)
  }

  ghost predicate CleanMasks(m: Masks, limit: nat) {
    && Clean(m.red, m.green, m.blue, m.alpha, limit)
    && Clean(m.green, m.red, m.blue, m.alpha, limit)
    && Clean(m.blue, m.red, m.green, m.alpha, limit)
    && Clean(m.alpha, m.red, m.green, m.blue, limit)
  }

  // ----- one component

  /** A byte squeezed into a field of at least 255 steps and stretched again is that byte. */
  lemma WideScaleRoundTrip(d: nat, max: nat)
    requires d <= 255 && max >= 255
    ensures var e := (d * max + 127) / 255; e <= max && ScaleUp(e, max) == d
  {
    var e := (d * max + 127) / 255;
    assert d * max - 127 <= e * 255 <= d * max + 127;
    MulMonotone(d, 255, max);
    QuotientUnique(e * 255 + max / 2, max, d, e * 255 + max / 2 - d * max);
  }

  /** A component as decoding yields it survives encoding and decoding at every width. */
  lemma ScaledAgain(v: nat, max: nat)
    requires v <= max && max > 0
    ensures var d := ScaleUp(v, max); var e := (d * max + 127) / 255;
      d <= 255 && e <= max && ScaleUp(e, max) == d
  {
    ScaleRange(v, max);
    if max <= 255 {
      ScaleRoundTrip(v, max);
    } else {
      WideScaleRoundTrip(ScaleUp(v, max), max);
    }
  }

  lemma ContiguousIsShl(mask: nat, w: nat)
    requires Contiguous(mask, w)
    ensures mask == Shl(Pow2(w) - 1, TrailingZeros(mask))
  {
    AndSelf(mask);
    MaskedIsMultiple(mask, mask);
    ShlIs(Pow2(w) - 1, TrailingZeros(mask));
  }

  lemma {:induction false} ShrShl(m: nat, k: nat)
    ensures Shr(Shl(m, k), k) == m
  {
    if k > 0 {
      ShrShl(m, k - 1);
    }
  }

  lemma FieldWithin(e: nat, w: nat, k: nat)
    requires e < Pow2(w)
    ensures Within(Shl(e, k), Shl(Pow2(w) - 1, k))
  {
    var ones := Pow2(w) - 1;
    AndLow(e, w);
    QuotientUnique(e, Pow2(w), 0, e);
    assert And(e, ones) == e;
    ShrShl(e, k);
    AndShift(Shl(e, k), ones, k);
  }

  lemma EncodeIs(value: nat, mask: nat, k: nat, max: nat)
    requires mask > 0 && TrailingZeros(mask) == k && mask / Pow2(k) == max
    ensures EncodeComponent(value, mask) == Shl((value * max + 127) / 255, k)
  {
    ShlIs((value * max + 127) / 255, k);
  }

  lemma DecodedField(p: nat, mask: nat, max: nat) returns (v: nat)
    requires mask > 0 && mask / Pow2(TrailingZeros(mask)) == max > 0
    ensures v <= max && DecodeComponent(p, mask) == ScaleUp(v, max)
  {
    FieldShift(p, mask);
    v := And(p, mask) / Pow2(TrailingZeros(mask));
    DecodeIs(p, mask, TrailingZeros(mask), v, max);
  }

  /** The component `d` of a pixel and the field value `e` it is written back as. */
  lemma FieldCode(p: nat, mask: nat, max: nat) returns (d: nat, e: nat)
    requires mask > 0 && mask / Pow2(TrailingZeros(mask)) == max > 0
    ensures d == DecodeComponent(p, mask) && EncodeComponent(d, mask) == Shl(e, TrailingZeros(mask))
    ensures e <= max && ScaleUp(e, max) == d
  {
    var v := DecodedField(p, mask, max);
    d, e := StretchedCode(v, mask, TrailingZeros(mask), max);
  }

  lemma StretchedCode(v: nat, mask: nat, k: nat, max: nat) returns (d: nat, e: nat)
    requires mask > 0 && TrailingZeros(mask) == k && mask / Pow2(k) == max > 0 && v <= max
    ensures d == ScaleUp(v, max) && EncodeComponent(d, mask) == Shl(e, k)
    ensures e <= max && ScaleUp(e, max) == d
  {
    d := ScaleUp(v, max);
    ScaledAgain(v, max);
    e := (d * max + 127) / 255;
    EncodeIs(d, mask, k, max);
  }

  /** What a field is written back as: its own bits only, and the same component again
      wherever those bits are found. */
  lemma WrittenBack(p: nat, mask: nat, y: nat)
    requires IsField(mask)
    ensures var code := EncodeComponent(DecodeComponent(p, mask), mask);
      && Within(code, mask)
      && (And(y, mask) == code ==> DecodeComponent(y, mask) == DecodeComponent(p, mask))
  {
    if mask > 0 {
      var w: nat :| Contiguous(mask, w);
      OnesOdd(w);
      ContiguousIsShl(mask, w);
      var d, e := FieldCode(p, mask, Pow2(w) - 1);
      BackInField(mask, w, TrailingZeros(mask), e, y);
    }
  }

  lemma BackInField(mask: nat, w: nat, k: nat, e: nat, y: nat)
    requires w > 0 && mask == Shl(Pow2(w) - 1, k) && e < Pow2(w)
    ensures Within(Shl(e, k), mask)
    ensures And(y, mask) == Shl(e, k) ==> DecodeComponent(y, mask) == ScaleUp(e, Pow2(w) - 1)
  {
    OnesOdd(w);
    FieldWithin(e, w, k);
    if And(y, mask) == Shl(e, k) {
      ShiftedDecodes(y, mask, k, e, Pow2(w) - 1);
    }
  }

  // ----- four fields in one cell

  lemma {:induction false} OrThenAnd(a: nat, b: nat, m: nat)
    ensures And(Or(a, b), m) == Or(And(a, m), And(b, m))
  {
    OrHalves(a, b);
    AndHalves(Or(a, b), m);
    AndHalves(a, m);
    AndHalves(b, m);
    OrHalves(And(a, m), And(b, m));
    if a > 0 || b > 0 {
      OrThenAnd(a / 2, b / 2, m / 2);
    }
  }

  lemma {:induction false} OrAbsorbs(a: nat, b: nat)
    requires Within(b, a)
    ensures Or(a, b) == a && Or(b, a) == a
  {
    AndHalves(b, a);
    OrHalves(a, b);
    OrHalves(b, a);
    if b > 0 {
      OrAbsorbs(a / 2, b / 2);
    }
  }

  lemma {:induction false} OutsideField(x: nat, m: nat, other: nat)
    requires Within(x, m) && Disjoint(m, other)
    ensures And(x, other) == 0
  {
    AndHalves(x, m);
    AndHalves(m, other);
    AndHalves(x, other);
    if x > 0 {
      OutsideField(x / 2, m / 2, other / 2);
    }
  }

  lemma {:induction false} AndCommutes(a: nat, b: nat)
    ensures And(a, b) == And(b, a)
  {
    AndHalves(a, b);
    AndHalves(b, a);
    if a > 0 && b > 0 {
      AndCommutes(a / 2, b / 2);
    }
  }

  lemma {:induction false} AndInside(p: nat, a: nat, b: nat)
    ensures Within(And(And(p, a), b), And(p, b))
  {
    AndHalves(p, a);
    AndHalves(And(p, a), b);
    AndHalves(p, b);
    AndHalves(And(And(p, a), b), And(p, b));
    if p > 0 && a > 0 && b > 0 {
      AndInside(p / 2, a / 2, b / 2);
    }
  }

  /** Under `mask`, `x` shows nothing but bits of `code`. */
  predicate Harmless(x: nat, mask: nat, code: nat) {
    Within(And(x, mask), code)
  }

  lemma OrHarmless(x: nat, y: nat, mask: nat, code: nat)
    requires Harmless(x, mask, code) && Harmless(y, mask, code)
    ensures Harmless(Or(x, y), mask, code)
    ensures And(x, mask) == code || And(y, mask) == code ==> And(Or(x, y), mask) == code
  {
    OrThenAnd(x, y, mask);
    OrWithin(And(x, mask), And(y, mask), code);
    OrAbsorbs(code, And(x, mask));
    OrAbsorbs(code, And(y, mask));
  }

  /** A mask finds its own code among four when the other three are harmless to it. */
  lemma FindsOwn(r: nat, g: nat, b: nat, a: nat, mask: nat, code: nat)
    requires Harmless(r, mask, code) && Harmless(g, mask, code) && Harmless(b, mask, code) && Harmless(a, mask, code)
    requires And(r, mask) == code || And(g, mask) == code || And(b, mask) == code || And(a, mask) == code
    ensures And(Or(Or(Or(r, g), b), a), mask) == code
  {
    OrHarmless(r, g, mask, code);
    OrHarmless(Or(r, g), b, mask, code);
    OrHarmless(Or(Or(r, g), b), a, mask, code);
  }

  function Code(p: nat, mask: nat): nat {
    EncodeComponent(DecodeComponent(p, mask), mask)
  }

  /** Each mask's code stays inside the mask, and decodes to the same component. */
  lemma CleanCode(p: nat, mask: nat, a: nat, b: nat, c: nat, n: nat, y: nat)
    requires Clean(mask, a, b, c, Pow2(n)) && p < Pow2(n)
    ensures Within(Code(p, mask), mask) && And(Code(p, mask), mask) == Code(p, mask) && Code(p, mask) < Pow2(n)
    ensures And(y, mask) == Code(p, mask) ==> DecodeComponent(y, mask) == DecodeComponent(p, mask)
  {
    AndAtMost(p, mask);
    if NarrowMask(mask) {
      ComponentRoundTrip(p, mask);
      AndCommutes(p, mask);
      AndWithin(mask, p);
    } else {
      WrittenBack(p, mask, y);
      AndAtMost(Code(p, mask), mask);
    }
  }

  /** What `other` is written as does not disturb a clean mask. */
  lemma OtherHarmless(p: nat, mask: nat, other: nat)
    requires NarrowMask(mask) || Disjoint(mask, other)
    requires NarrowMask(other) || Disjoint(other, mask)
    requires Within(Code(p, other), other)
    ensures Harmless(Code(p, other), mask, Code(p, mask))
  {
    AndCommutes(mask, other);
    if Disjoint(mask, other) {
      OutsideField(Code(p, other), other, mask);
    } else {
      ComponentRoundTrip(p, mask);
      ComponentRoundTrip(p, other);
      AndInside(p, other, mask);
    }
  }

  lemma OthersHarmless(p: nat, mask: nat, a: nat, b: nat, c: nat, n: nat)
    requires Clean(mask, a, b, c, Pow2(n))
    requires NarrowMask(a) || Disjoint(a, mask)
    requires NarrowMask(b) || Disjoint(b, mask)
    requires NarrowMask(c) || Disjoint(c, mask)
    requires Within(Code(p, a), a) && Within(Code(p, b), b) && Within(Code(p, c), c)
    requires And(Code(p, mask), mask) == Code(p, mask)
    ensures Harmless(Code(p, a), mask, Code(p, mask)) && Harmless(Code(p, b), mask, Code(p, mask))
    ensures Harmless(Code(p, c), mask, Code(p, mask)) && Harmless(Code(p, mask), mask, Code(p, mask))
  {
    OtherHarmless(p, mask, a);
    OtherHarmless(p, mask, b);
    OtherHarmless(p, mask, c);
    AndSelf(Code(p, mask));
  }

  /** A cell of clean masks comes back with the same colour, whatever the fields' widths. */
  lemma CleanRoundTrip(m: Masks, p: nat, n: nat)
    requires CleanMasks(m, Pow2(n)) && p < Pow2(n)
    ensures var y := EncodeMasked(m, DecodeMasked(m, p)); y < Pow2(n) && DecodeMasked(m, y) == DecodeMasked(m, p)
  {
    var r, g, b, a := Code(p, m.red), Code(p, m.green), Code(p, m.blue), Code(p, m.alpha);
    var y := Or(Or(Or(r, g), b), a);
    assert EncodeMasked(m, DecodeMasked(m, p)) == y;
    CleanCode(p, m.red, m.green, m.blue, m.alpha, n, y);
    CleanCode(p, m.green, m.red, m.blue, m.alpha, n, y);
    CleanCode(p, m.blue, m.red, m.green, m.alpha, n, y);
    CleanCode(p, m.alpha, m.red, m.green, m.blue, n, y);
    OthersHarmless(p, m.red, m.green, m.blue, m.alpha, n);
    OthersHarmless(p, m.green, m.red, m.blue, m.alpha, n);
    OthersHarmless(p, m.blue, m.red, m.green, m.alpha, n);
    OthersHarmless(p, m.alpha, m.red, m.green, m.blue, n);
    FindsOwn(r, g, b, a, m.red, r);
    FindsOwn(r, g, b, a, m.green, g);
    FindsOwn(r, g, b, a, m.blue, b);
    FindsOwn(r, g, b, a, m.alpha, a);
    OrBound(r, g, n);
    OrBound(Or(r, g), b, n);
    OrBound(Or(Or(r, g), b), a, n);
  }

  lemma CellPowers()
    ensures Pow2(16) == CellLimit(16) && Pow2(32) == CellLimit(32)
  {
    Pow2Values();
    assert Pow2(26) == 0x400_0000 && Pow2(28) == 0x1000_0000;
    assert Pow2(30) == 0x4000_0000 && Pow2(32) == 0x1_0000_0000;
  }

  lemma CleanCell(m: Masks, v: nat, bitCount: nat) returns (y: nat)
    requires bitCount == 16 || bitCount == 32
    requires v < CellLimit(bitCount) && CleanMasks(m, CellLimit(bitCount))
    ensures y == EncodeMasked(m, DecodeMasked(m, v)) && y < CellLimit(bitCount)
              && DecodeMasked(m, y) == DecodeMasked(m, v)
  {
    CellPowers();
    CleanRoundTrip(m, v, bitCount);
    y := EncodeMasked(m, DecodeMasked(m, v));
  }

  /** The products of decoding a field value and of encoding a byte fit 32 bits. */
  predicate ProductsFit(v: nat, d: nat, max: nat) {
    v * 255 + max / 2 < 0x1_0000_0000 && d * max + 127 < 0x1_0000_0000
  }

  /** They do for every value of a field exactly when it is at most 24 bits wide. */
  lemma ProductsFitIff(w: nat, max: nat)
    requires w >= 1 && max == Pow2(w) - 1
    ensures (forall v: nat, d: nat :: v <= max && d <= 255 ==> ProductsFit(v, d, max)) <==> w <= 24
  {
    Pow2Values();
    if w <= 24 {
      Pow2Monotone(w, 24);
      forall v: nat, d: nat | v <= max && d <= 255 ensures ProductsFit(v, d, max) {
        MulMonotone(d, 255, max);
      }
    } else {
      Pow2Monotone(25, w);
      assert Pow2(25) == 0x200_0000;
      assert !ProductsFit(max, 0, max);
    }
  }

  lemma LowField(p: nat, w: nat, mask: nat)
    requires w >= 1 && mask == Pow2(w) - 1 && p < Pow2(w)
    ensures mask > 0 && DecodeComponent(p, mask) == ScaleUp(p, mask)
  {
    ContiguousField(p, w, 0, mask);
    assert Field(p, 1, Pow2(w)) == p % Pow2(w) by { assert p / 1 == p; }
    QuotientUnique(p, Pow2(w), 0, p);
  }

  lemma LowCode(v: nat, w: nat, mask: nat)
    requires w >= 1 && mask == Pow2(w) - 1
    ensures EncodeComponent(v, mask) == (v * mask + 127) / 255
  {
    OnesOdd(w);
    EncodeIs(v, mask, 0, mask);
  }

  lemma SmallScales()
    ensures ScaleUp(3, 1023) == 1 && ScaleUp(3, 511) == 1 && ScaleUp(6, 511) == 3
  {
  }

  lemma TenBits(red: nat)
    requires red == Pow2(10) - 1
    ensures Code(3, red) == 4
  {
    Pow2Values();
    SmallScales();
    LowField(3, 10, red);
    LowCode(1, 10, red);
  }

  lemma NineBits(green: nat)
    requires green == Pow2(9) - 1 && Pow2(9) == 512
    ensures DecodeComponent(3, green) == 1 && DecodeComponent(6, green) == 3
  {
    SmallScales();
    LowField(3, 9, green);
    LowField(6, 9, green);
  }

  lemma NineBitsCode(green: nat)
    requires green == Pow2(9) - 1 && Pow2(9) == 512
    ensures Code(3, green) == 2
  {
    NineBits(green);
    LowCode(1, 9, green);
  }

  /** The bit above the low ten is no part of small numbers. */
  lemma HighBit(p: nat, blue: nat)
    requires blue == Shl(1, 10) && p < 0x400
    ensures blue > 0 && DecodeComponent(p, blue) == 0 && Code(p, blue) == 0
  {
    Pow2Values();
    ContiguousField(p, 1, 10, blue);
    ShlOdd(1, 10);
    ShlQuotient(1, 10);
    EncodeIs(0, blue, 10, 1);
    ShlIs(0, 10);
  }

  /** Wide masks that share bits do drift: ten and nine bits from the same end, value 3. */
  lemma SharedWideMasksDrift(f: Format)
    requires f.bitCount == 16 && f.masks.red == Pow2(10) - 1 && f.masks.green == Pow2(9) - 1
    requires f.masks.blue == Shl(1, 10) && f.masks.alpha == 0
    ensures !RoundTrips(f, 3)
  {
    Pow2Values();
    TenBits(f.masks.red);
    assert Pow2(10) == 2 * Pow2(9);
    NineBits(f.masks.green);
    NineBitsCode(f.masks.green);
    HighBit(3, f.masks.blue);
    OnesOdd(10);
    OnesOdd(9);
    SixForThree(f);
  }

  lemma FourOrTwo()
    ensures Or(Or(Or(4, 2), 0), 0) == 6
  {
    assert Or(2, 1) == 3 by { assert Or(1, 0) == 1; }
    assert Or(4, 2) == 6;
  }

  lemma SixForThree(f: Format)
    requires f.bitCount == 16 && f.masks.red > 0 && f.masks.green > 0 && f.masks.blue > 0 && f.masks.alpha == 0
    requires Code(3, f.masks.red) == 4 && Code(3, f.masks.green) == 2 && Code(3, f.masks.blue) == 0
    requires DecodeComponent(6, f.masks.green) != DecodeComponent(3, f.masks.green)
    ensures !RoundTrips(f, 3)
  {
    var m := f.masks;
    FourOrTwo();
    assert EncodeMasked(m, DecodeMasked(m, 3)) == 6;
    assert Encode(f, Decode(f, 3)) == 6;
    assert Decode(f, 6).g == DecodeComponent(6, m.green) && Decode(f, 3).g == DecodeComponent(3, m.green);
  }
}
