/** Bitwise operations on natural numbers, defined by halving. */
module Bits {
  import opened Arith

  function Pow2(n: nat): (p: nat)
    ensures p >= 1
  {
    if n == 0 then 1 else 2 * Pow2(n - 1)
  }

  function And(a: nat, b: nat): nat {
    if a == 0 || b == 0 then 0 else 2 * And(a / 2, b / 2) + if a % 2 == 1 && b % 2 == 1 then 1 else 0
  }

  function Or(a: nat, b: nat): nat {
    if a == 0 then b else if b == 0 then a else 2 * Or(a / 2, b / 2) + if a % 2 == 1 || b % 2 == 1 then 1 else 0
  }

  function TrailingZeros(m: nat): nat
    requires m > 0
  {
    if m % 2 == 1 then 0 else 1 + TrailingZeros(m / 2)
  }

  /** Every bit of `a` is a bit of `b`. */
  predicate Within(a: nat, b: nat) {
    And(a, b) == a
  }

  lemma AndHalves(a: nat, b: nat)
    ensures And(a, b) / 2 == And(a / 2, b / 2)
    ensures And(a, b) % 2 == if a % 2 == 1 && b % 2 == 1 then 1 else 0
  {
  }

  lemma OrHalves(a: nat, b: nat)
    ensures Or(a, b) / 2 == Or(a / 2, b / 2)
    ensures Or(a, b) % 2 == if a % 2 == 1 || b % 2 == 1 then 1 else 0
  {
  }

  lemma {:induction false} AndAtMost(a: nat, b: nat)
    ensures And(a, b) <= a && And(a, b) <= b
  {
    AndHalves(a, b);
    if a > 0 && b > 0 {
      AndAtMost(a / 2, b / 2);
    }
  }

  lemma {:induction false} AndWithin(p: nat, m: nat)
    ensures Within(And(p, m), p)
  {
    AndHalves(p, m);
    AndHalves(And(p, m), p);
    if p > 0 && m > 0 {
      AndWithin(p / 2, m / 2);
    }
  }

  lemma {:induction false} WithinOr(a: nat, b: nat)
    ensures Within(a, Or(a, b)) && Within(b, Or(a, b))
  {
    OrHalves(a, b);
    AndHalves(a, Or(a, b));
    AndHalves(b, Or(a, b));
    if a > 0 || b > 0 {
      WithinOr(a / 2, b / 2);
    }
  }

  lemma {:induction false} OrWithin(a: nat, b: nat, c: nat)
    requires Within(a, c) && Within(b, c)
    ensures Within(Or(a, b), c)
  {
    OrHalves(a, b);
    AndHalves(a, c);
    AndHalves(b, c);
    AndHalves(Or(a, b), c);
    if a > 0 || b > 0 {
      OrWithin(a / 2, b / 2, c / 2);
    }
  }

  lemma {:induction false} WithinTransitive(a: nat, b: nat, c: nat)
    requires Within(a, b) && Within(b, c)
    ensures Within(a, c)
  {
    AndHalves(a, b);
    AndHalves(b, c);
    AndHalves(a, c);
    if a > 0 {
      WithinTransitive(a / 2, b / 2, c / 2);
    }
  }

  /** Between a field of `p` and `p` itself, masking gives back that field. */
  lemma {:induction false} MaskBetween(p: nat, m: nat, y: nat)
    requires Within(And(p, m), y) && Within(y, p)
    ensures And(y, m) == And(p, m)
  {
    AndHalves(p, m);
    AndHalves(And(p, m), y);
    AndHalves(y, p);
    AndHalves(y, m);
    if p > 0 || m > 0 || y > 0 {
      MaskBetween(p / 2, m / 2, y / 2);
    }
  }

  lemma {:induction false} MaskedIsMultiple(p: nat, m: nat)
    requires m > 0
    ensures And(p, m) == And(p, m) / Pow2(TrailingZeros(m)) * Pow2(TrailingZeros(m))
  {
    AndHalves(p, m);
    if m % 2 == 0 {
      MaskedIsMultiple(p / 2, m / 2);
      DoubleMultiple(And(p / 2, m / 2), Pow2(TrailingZeros(m / 2)));
    }
  }

  lemma DoubleMultiple(a: nat, h: nat)
    requires h > 0 && a == a / h * h
    ensures 2 * a == (2 * a) / (2 * h) * (2 * h)
  {
    DoubleOverDouble(a, h);
    var q := a / h;
    assert q * (2 * h) == 2 * (q * h);
  }

  lemma {:induction false} AndSelf(m: nat)
    ensures And(m, m) == m
  {
    if m > 0 {
      AndSelf(m / 2);
    }
  }

  lemma {:induction false} OddAtBottom(m: nat)
    requires m > 0
    ensures m / Pow2(TrailingZeros(m)) % 2 == 1
  {
    if m % 2 == 0 {
      OddAtBottom(m / 2);
      DoubleOverDouble(m / 2, Pow2(TrailingZeros(m / 2)));
    }
  }

  /** Shifted down by the mask's trailing zeros, a masked value is at most the shifted mask,
      and shifting it up again loses nothing. */
  lemma FieldShift(p: nat, m: nat)
    requires m > 0
    ensures var one := Pow2(TrailingZeros(m));
      And(p, m) == And(p, m) / one * one && And(p, m) / one <= m / one
  {
    MaskedIsMultiple(p, m);
    AndAtMost(p, m);
    QuotientAtMost(And(p, m), m, Pow2(TrailingZeros(m)));
  }

  /** The mask's own lowest bit survives the mask. */
  lemma {:induction false} LowestBit(m: nat)
    requires m > 0
    ensures And(Pow2(TrailingZeros(m)), m) == Pow2(TrailingZeros(m))
  {
    AndHalves(Pow2(TrailingZeros(m)), m);
    if m % 2 == 0 {
      LowestBit(m / 2);
    }
  }

  // ----- single bits and nibbles of a byte

  /** Bit `k`, counted from the low end. */
  function Bit(b: nat, k: nat): (v: nat)
    ensures v < 2
    decreases k
  {
    if k == 0 then b % 2 else Bit(b / 2, k - 1)
  }

  lemma {:induction false} BitOr(a: nat, b: nat, k: nat)
    ensures Bit(Or(a, b), k) == if Bit(a, k) == 1 || Bit(b, k) == 1 then 1 else 0
    decreases k
  {
    OrHalves(a, b);
    if k > 0 {
      BitOr(a / 2, b / 2, k - 1);
    }
  }

  lemma {:induction false} BitAnd(a: nat, b: nat, k: nat)
    ensures Bit(And(a, b), k) == if Bit(a, k) == 1 && Bit(b, k) == 1 then 1 else 0
    decreases k
  {
    AndHalves(a, b);
    if k > 0 {
      BitAnd(a / 2, b / 2, k - 1);
    }
  }

  lemma {:induction false} BitPow2(n: nat, k: nat)
    ensures Bit(Pow2(n), k) == if k == n then 1 else 0
    decreases k
  {
    if k > 0 {
      if n > 0 {
        assert Pow2(n) / 2 == Pow2(n - 1);
        BitPow2(n - 1, k - 1);
      } else {
        ZeroBits(k - 1);
      }
    }
  }

  lemma {:induction false} ZeroBits(k: nat)
    ensures Bit(0, k) == 0
    decreases k
  {
    if k > 0 {
      ZeroBits(k - 1);
    }
  }

  lemma {:induction false} OrBound(a: nat, b: nat, n: nat)
    requires a < Pow2(n) && b < Pow2(n)
    ensures Or(a, b) < Pow2(n)
  {
    OrHalves(a, b);
    if n > 0 {
      OrBound(a / 2, b / 2, n - 1);
    }
  }

  /** Complementing the low `n` bits flips each of them. */
  lemma {:induction false} BitComplement(a: nat, n: nat, k: nat)
    requires a < Pow2(n) && k < n
    ensures Bit(Pow2(n) - 1 - a, k) == 1 - Bit(a, k)
  {
    assert (Pow2(n) - 1 - a) / 2 == Pow2(n - 1) - 1 - a / 2;
    if k > 0 {
      BitComplement(a / 2, n - 1, k - 1);
    }
  }

  /** Setting or clearing bit `k` of a byte changes that bit only. */
  lemma SetBitOnly(b: nat, k: nat, j: nat)
    requires b < 256 && k < 8 && j < 8
    ensures Pow2(k) < 256 && Or(b, Pow2(k)) < 256 && And(b, 255 - Pow2(k)) < 256
    ensures Bit(Or(b, Pow2(k)), j) == if j == k then 1 else Bit(b, j)
    ensures Bit(And(b, 255 - Pow2(k)), j) == if j == k then 0 else Bit(b, j)
  {
    assert Pow2(3) == 8;
    assert Pow2(5) == 32;
    assert Pow2(8) == 256;
    Pow2Monotone(k + 1, 8);
    OrBound(b, Pow2(k), 8);
    AndAtMost(b, 255 - Pow2(k));
    BitOr(b, Pow2(k), j);
    BitAnd(b, 255 - Pow2(k), j);
    BitPow2(k, j);
    BitComplement(Pow2(k), 8, j);
  }

  lemma {:induction false} Pow2Monotone(a: nat, b: nat)
    requires a <= b
    ensures Pow2(a) <= Pow2(b)
    decreases b
  {
    if a < b {
      Pow2Monotone(a, b - 1);
    }
  }
}
