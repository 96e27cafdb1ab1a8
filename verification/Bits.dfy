/** Numbers bit by bit: shifting, dropping and keeping low bits, all by halving and doubling, so that
    no proof about them has to multiply. */
module Bits {
  import opened FullMath

  /** v * 2^k */
  function Shifted(v: nat, k: nat): nat {
    if k == 0 then v else 2 * Shifted(v, k - 1)
  }

  /** v / 2^k */
  function Dropped(v: nat, k: nat): nat {
    if k == 0 then v else Dropped(v / 2, k - 1)
  }

  /** v mod 2^k */
  function Kept(v: nat, k: nat): nat {
    if k == 0 then 0 else v % 2 + 2 * Kept(v / 2, k - 1)
  }

  function Pow2(k: nat): nat {
    Shifted(1, k)
  }

  predicate Bit(v: nat, k: nat) {
    if k == 0 then v % 2 == 1 else Bit(v / 2, k - 1)
  }

  /** Number of binary digits. */
  function Width(v: nat): nat {
    if v == 0 then 0 else 1 + Width(v / 2)
  }

  /** Number of zeros below the lowest one. */
  function Zeros(v: nat): nat
    requires 0 < v
  {
    if v % 2 == 1 then 0 else 1 + Zeros(v / 2)
  }

  // -----------------------------------------------------------------------------------------
  // Shifting is multiplication, and dropping and keeping split a number

  lemma MulSwap(a: nat, b: nat, c: nat)
    ensures a * (b * c) == b * (a * c)
  {}

  lemma {:induction false} ShiftedIsProduct(v: nat, k: nat)
    ensures Shifted(v, k) == v * Pow2(k)
  {
    if k > 0 {
      ShiftedIsProduct(v, k - 1);
      MulSwap(v, 2, Pow2(k - 1));
    }
  }

  lemma {:induction false} ShiftedTwice(v: nat, j: nat, k: nat)
    ensures Shifted(Shifted(v, j), k) == Shifted(v, j + k)
  {
    if k > 0 { ShiftedTwice(v, j, k - 1); }
  }

  lemma {:induction false} ShiftedSum(a: nat, b: nat, k: nat)
    ensures Shifted(a + b, k) == Shifted(a, k) + Shifted(b, k)
  {
    if k > 0 { ShiftedSum(a, b, k - 1); }
  }

  lemma {:induction false} ShiftedLe(a: nat, b: nat, k: nat)
    ensures a <= b <==> Shifted(a, k) <= Shifted(b, k)
    ensures a == b <==> Shifted(a, k) == Shifted(b, k)
    ensures a <= Shifted(a, k)
  {
    if k > 0 { ShiftedLe(a, b, k - 1); }
  }

  /** Every number is its dropped part shifted back up, plus what was kept. */
  lemma {:induction false} SplitAt(v: nat, k: nat)
    ensures v == Shifted(Dropped(v, k), k) + Kept(v, k)
    ensures Kept(v, k) < Pow2(k)
  {
    if k > 0 { SplitAt(v / 2, k - 1); }
  }

  lemma {:induction false} SplitIsUnique(q: nat, r: nat, k: nat)
    requires r < Pow2(k)
    ensures Dropped(Shifted(q, k) + r, k) == q && Kept(Shifted(q, k) + r, k) == r
  {
    if k > 0 {
      SplitIsUnique(q, r / 2, k - 1);
      assert (Shifted(q, k) + r) / 2 == Shifted(q, k - 1) + r / 2;
    }
  }

  // -----------------------------------------------------------------------------------------
  // Bits

  lemma {:induction false} BitOfShifted(v: nat, s: nat, k: nat)
    ensures Bit(Shifted(v, s), k) <==> k >= s && Bit(v, k - s)
  {
    if s > 0 && k > 0 { BitOfShifted(v, s - 1, k - 1); }
  }

  lemma {:induction false} BitOfDropped(v: nat, s: nat, k: nat)
    ensures Bit(Dropped(v, s), k) <==> Bit(v, s + k)
  {
    if s > 0 { BitOfDropped(v / 2, s - 1, k); }
  }

  lemma {:induction false} BitOfKept(v: nat, s: nat, k: nat)
    ensures Bit(Kept(v, s), k) <==> k < s && Bit(v, k)
    decreases s, k
  {
    if s == 0 { NoBits(0, k); }
    else if k > 0 { BitOfKept(v / 2, s - 1, k - 1); }
  }

  lemma {:induction false} NoBits(v: nat, k: nat)
    requires v == 0
    ensures !Bit(v, k)
  {
    if k > 0 { NoBits(v / 2, k - 1); }
  }

  /** The highest bit is the one below the width. */
  lemma {:induction false} WidthIsHighest(v: nat)
    requires 0 < v
    ensures 0 < Width(v) && Bit(v, Width(v) - 1)
  {
    if v > 1 { WidthIsHighest(v / 2); }
  }

  lemma {:induction false} NoBitsAbove(v: nat, k: nat)
    requires Width(v) <= k
    ensures !Bit(v, k)
  {
    if v == 0 { NoBits(v, k); } else { NoBitsAbove(v / 2, k - 1); }
  }

  lemma {:induction false} WidthWithin(v: nat, n: nat)
    ensures v < Pow2(n) <==> Width(v) <= n
  {
    if v > 0 && n > 0 { WidthWithin(v / 2, n - 1); }
    ShiftedLe(1, 1, n);
  }

  lemma {:induction false} ZerosIsLowest(v: nat)
    requires 0 < v
    ensures Bit(v, Zeros(v)) && forall k :: 0 <= k < Zeros(v) ==> !Bit(v, k)
  {
    if v % 2 == 0 {
      ZerosIsLowest(v / 2);
      forall k | 0 <= k < Zeros(v) ensures !Bit(v, k) {
        if k > 0 { assert !Bit(v / 2, k - 1); }
      }
    }
  }

  /** A number with no bit set is zero, so numbers with the same bits are the same. */
  lemma {:induction false} SameBits(v: nat, w: nat)
    requires forall k: nat :: Bit(v, k) <==> Bit(w, k)
    ensures v == w
    decreases v + w
  {
    if v > 0 || w > 0 {
      assert Bit(v, 0) <==> Bit(w, 0);
      forall k: nat ensures Bit(v / 2, k) <==> Bit(w / 2, k) {
        assert Bit(v, k + 1) <==> Bit(w, k + 1);
      }
      SameBits(v / 2, w / 2);
    }
  }
}
