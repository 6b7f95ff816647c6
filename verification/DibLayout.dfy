/** What the mask arithmetic of the DIB codec amounts to for contiguous fields: plain shifts,
and for the usual formats plain bytes. */
module DibLayout {
  import opened Arith
  import opened Bits
  import opened Color
  import opened Common
  import opened Dib

  lemma {:induction false} AndLow(p: nat, w: nat)
    ensures And(p, Pow2(w) - 1) == p % Pow2(w)
    decreases w
  {
    AndHalves(p, Pow2(w) - 1);
    if w > 0 {
      AndLow(p / 2, w - 1);
      assert (Pow2(w) - 1) / 2 == Pow2(w - 1) - 1;
      LowBits(p, Pow2(w - 1));
    }
  }

  lemma LowBits(p: nat, h: nat)
    requires h > 0
    ensures p % (2 * h) == 2 * (p / 2 % h) + p % 2
  {
    var q := p / 2 / h;
    assert p / 2 == q * h + p / 2 % h;
    assert q * (2 * h) == 2 * (q * h);
    QuotientUnique(p, 2 * h, q, 2 * (p / 2 % h) + p % 2);
  }

  lemma AndEven(p: nat, even: nat, half: nat)
    requires even == 2 * half
    ensures And(p, even) == 2 * And(p / 2, half)
  {
    AndHalves(p, even);
    assert even / 2 == half && even % 2 == 0;
  }

  function Shl(m: nat, k: nat): nat {
    if k == 0 then m else 2 * Shl(m, k - 1)
  }

  function Shr(p: nat, k: nat): nat {
    if k == 0 then p else Shr(p / 2, k - 1)
  }

  /** A mask shifted up picks from the number shifted down. */
  lemma {:induction false} AndShift(p: nat, m: nat, k: nat)
    ensures And(p, Shl(m, k)) == Shl(And(Shr(p, k), m), k)
    decreases k
  {
    if k > 0 {
      AndEven(p, Shl(m, k), Shl(m, k - 1));
      AndShift(p / 2, m, k - 1);
    }
  }

  lemma {:induction false} ShlIs(m: nat, k: nat)
    ensures Shl(m, k) == m * Pow2(k)
  {
    if k > 0 {
      ShlIs(m, k - 1);
      assert m * (2 * Pow2(k - 1)) == 2 * (m * Pow2(k - 1));
    }
  }

  lemma {:induction false} ShrIs(p: nat, k: nat)
    ensures Shr(p, k) == p / Pow2(k)
    decreases k
  {
    if k > 0 {
      ShrIs(p / 2, k - 1);
      HalvedQuotient(p, Pow2(k - 1));
    }
  }

  lemma HalvedQuotient(p: nat, h: nat)
    requires h > 0
    ensures p / 2 / h == p / (2 * h)
  {
    var q, r := p / 2 / h, p / 2 % h;
    assert p / 2 == q * h + r;
    assert q * (2 * h) == 2 * (q * h);
    QuotientUnique(p, 2 * h, q, 2 * r + p % 2);
  }

  lemma DecodeIs(p: nat, mask: nat, k: nat, value: nat, max: nat)
    requires mask > 0 && TrailingZeros(mask) == k && max > 0
    requires mask / Pow2(k) == max && And(p, mask) / Pow2(k) == value
    ensures DecodeComponent(p, mask) == ScaleUp(value, max)
  {
  }

  /** The field of `size` values that starts at the bit worth `one`. */
  function Field(p: nat, one: nat, size: nat): nat
    requires one > 0 && size > 0
  {
    p / one % size
  }

  lemma FieldValue(p: nat, w: nat, k: nat, mask: nat)
    requires mask == Shl(Pow2(w) - 1, k)
    ensures And(p, mask) == Shl(Field(p, Pow2(k), Pow2(w)), k)
  {
    AndShift(p, Pow2(w) - 1, k);
    ShiftedField(p, w, k);
  }

  lemma ShiftedField(p: nat, w: nat, k: nat)
    ensures And(Shr(p, k), Pow2(w) - 1) == Field(p, Pow2(k), Pow2(w))
  {
    AndLow(Shr(p, k), w);
    ShrIs(p, k);
  }

  lemma ShlQuotient(m: nat, k: nat)
    ensures Shl(m, k) / Pow2(k) == m
  {
    ShlIs(m, k);
    QuotientUnique(Shl(m, k), Pow2(k), m, 0);
  }

  lemma {:induction false} ShlOdd(m: nat, k: nat)
    requires m % 2 == 1
    ensures Shl(m, k) > 0 && TrailingZeros(Shl(m, k)) == k
  {
    if k > 0 {
      ShlOdd(m, k - 1);
    }
  }

  lemma ShiftedDecodes(p: nat, mask: nat, k: nat, value: nat, max: nat)
    requires max % 2 == 1 && mask == Shl(max, k) && And(p, mask) == Shl(value, k)
    ensures DecodeComponent(p, mask) == ScaleUp(value, max)
  {
    ShlOdd(max, k);
    ShlQuotient(max, k);
    ShlQuotient(value, k);
    DecodeIs(p, mask, k, value, max);
  }

  lemma OnesOdd(w: nat)
    requires w >= 1
    ensures (Pow2(w) - 1) % 2 == 1
  {
    OneBelowDouble(Pow2(w - 1));
  }

  lemma OneBelowDouble(h: nat)
    requires h >= 1
    ensures (2 * h - 1) % 2 == 1
  {
    assert 2 * h - 1 == 2 * (h - 1) + 1;
  }

  /** A mask of `w` ones above `k` zeros decodes its field, shifted down and scaled to a byte. */
  lemma ContiguousField(p: nat, w: nat, k: nat, mask: nat)
    requires w >= 1 && mask == Shl(Pow2(w) - 1, k)
    ensures DecodeComponent(p, mask) == ScaleUp(Field(p, Pow2(k), Pow2(w)), Pow2(w) - 1)
  {
    OnesOdd(w);
    FieldValue(p, w, k, mask);
    ShiftedDecodes(p, mask, k, Field(p, Pow2(k), Pow2(w)), Pow2(w) - 1);
  }

  lemma FullByte(p: nat, mask: nat, k: nat)
    requires mask == 255 * Pow2(k)
    ensures DecodeComponent(p, mask) == p / Pow2(k) % 256
  {
    assert Pow2(8) == 256 by { assert Pow2(4) == 16; }
    ShlIs(255, k);
    ContiguousField(p, 8, k, mask);
    var v := Field(p, Pow2(k), 256);
    QuotientUnique(v * 255 + 127, 255, v, 127);
  }

  predicate DefaultMasks(f: Format) {
    f.masks.red == 0 || f.masks.green == 0 || f.masks.blue == 0
  }

  lemma ByteMasks(m: Masks, v: nat)
    requires m.alpha == 255 * Pow2(24) && m.red == 255 * Pow2(16) && m.green == 255 * Pow2(8) && m.blue == 255 * Pow2(0)
    ensures DecodeMasked(m, v) == Argb(v / 0x100_0000 % 256, v / 0x1_0000 % 256, v / 0x100 % 256, v % 256)
  {
    Pow2Values();
    FullByte(v, m.alpha, 24);
    FullByte(v, m.red, 16);
    FullByte(v, m.green, 8);
    FullByte(v, m.blue, 0);
  }

  /** Without masks, a 32-bit cell is blue, green, red and alpha from low to high. */
  lemma DecodeDefault32(f: Format, v: nat)
    requires f.bitCount == 32 && DefaultMasks(f)
    ensures Decode(f, v) == Argb(v / 0x100_0000 % 256, v / 0x1_0000 % 256, v / 0x100 % 256, v % 256)
  {
    Pow2Values();
    ByteMasks(EffectiveMasks(f), v);
  }

  lemma FiveBitField(p: nat, mask: nat, k: nat)
    requires mask == 31 * Pow2(k)
    ensures DecodeComponent(p, mask) == ScaleUp(p / Pow2(k) % 32, 31)
  {
    assert Pow2(5) == 32;
    ShlIs(31, k);
    ContiguousField(p, 5, k, mask);
  }

  lemma FiveBitMasks(m: Masks, v: nat)
    requires m.alpha == 0 && m.red == 31 * Pow2(10) && m.green == 31 * Pow2(5) && m.blue == 31 * Pow2(0)
    ensures var c := DecodeMasked(m, v);
      && c.a == 255 && c.r == ScaleUp(v / 1024 % 32, 31) && c.g == ScaleUp(v / 32 % 32, 31)
          && c.b == ScaleUp(v % 32, 31)
  {
    Pow2Values();
    FiveBitField(v, m.red, 10);
    FiveBitField(v, m.green, 5);
    FiveBitField(v, m.blue, 0);
  }

  /** Without masks, a 16-bit cell holds three five-bit channels, red on top, and no alpha. */
  lemma DecodeDefault16(f: Format, v: nat)
    requires f.bitCount == 16 && DefaultMasks(f)
    ensures var c := Decode(f, v);
      && c.a == 255 && c.r == ScaleUp(v / 1024 % 32, 31) && c.g == ScaleUp(v / 32 % 32, 31)
          && c.b == ScaleUp(v % 32, 31)
  {
    Pow2Values();
    FiveBitMasks(EffectiveMasks(f), v);
  }
}
