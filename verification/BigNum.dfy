/** programs/amm/src/libraries/big_num.rs: little-endian word arrays, `[u64; n]` for any n, with the
    shifts, bit operations and zero counts the tick-array bitmaps are built on. Every operation is
    proved against the number the array stands for. */
module BigNum {
  import opened Bits

  const WORD: nat := 0x1_0000_0000_0000_0000

  lemma WordIsPow2()
    ensures Pow2(64) == WORD
  {
    ShiftedByByte(1);
    hide Shifted;
    ShiftedTwice(1, 8, 8);
    ShiftedByByte(Pow2(8));
    ShiftedTwice(1, 16, 8);
    ShiftedByByte(Pow2(16));
    ShiftedTwice(1, 24, 8);
    ShiftedByByte(Pow2(24));
    ShiftedTwice(1, 32, 8);
    ShiftedByByte(Pow2(32));
    ShiftedTwice(1, 40, 8);
    ShiftedByByte(Pow2(40));
    ShiftedTwice(1, 48, 8);
    ShiftedByByte(Pow2(48));
    ShiftedTwice(1, 56, 8);
    ShiftedByByte(Pow2(56));
  }

  lemma ShiftedByByte(v: nat)
    ensures Shifted(v, 8) == 256 * v
  {
    assert Shifted(v, 1) == 2 * v;
    assert Shifted(v, 2) == 4 * v;
    assert Shifted(v, 3) == 8 * v;
    assert Shifted(v, 4) == 16 * v;
    assert Shifted(v, 5) == 32 * v;
    assert Shifted(v, 6) == 64 * v;
    assert Shifted(v, 7) == 128 * v;
  }

  /** All words fit 64 bits. */
  ghost predicate Words(s: seq<nat>) {
    forall i :: 0 <= i < |s| ==> s[i] < Pow2(64)
  }

  /** The number a word array stands for. */
  function Value(s: seq<nat>): nat {
    if s == [] then 0 else s[0] + Shifted(Value(s[1..]), 64)
  }

  lemma {:induction false} ValueBound(s: seq<nat>)
    requires Words(s)
    ensures Value(s) < Pow2(64 * |s|)
  {
    hide Shifted;
    if s == [] {
      assert Pow2(0) == 1 by { PowZero(); }
    } else {
      ValueBound(s[1..]);
      ShiftedTwice(1, 64 * (|s| - 1), 64);
      ShiftedLe(Value(s[1..]) + 1, Pow2(64 * (|s| - 1)), 64);
      ShiftedSum(Value(s[1..]), 1, 64);
    }
  }

  lemma PowZero()
    ensures Pow2(0) == 1
  {}

  lemma {:induction false} ValueAppend(s: seq<nat>, t: seq<nat>)
    ensures Value(s + t) == Value(s) + Shifted(Value(t), 64 * |s|)
  {
    if s == [] {
      assert s + t == t;
    } else {
      hide Shifted;
      ValueAppend(s[1..], t);
      assert (s + t)[1..] == s[1..] + t;
      ShiftedSum(Value(s[1..]), Shifted(Value(t), 64 * (|s| - 1)), 64);
      ShiftedTwice(Value(t), 64 * (|s| - 1), 64);
    }
  }

  lemma ValueSnoc(s: seq<nat>, x: nat)
    ensures Value(s + [x]) == Value(s) + Shifted(x, 64 * |s|)
  {
    assert Value([x]) == x + Shifted(Value([]), 64) == x by { ZeroShifted(64); }
    ValueAppend(s, [x]);
  }

  lemma {:induction false} ZeroShifted(k: nat)
    ensures Shifted(0, k) == 0
  {
    if k > 0 { ZeroShifted(k - 1); }
  }

  lemma {:induction false} ZeroWords(s: seq<nat>)
    requires forall i :: 0 <= i < |s| ==> s[i] == 0
    ensures Value(s) == 0
  {
    if s != [] {
      ZeroWords(s[1..]);
      ZeroShifted(64);
    }
  }

  // -----------------------------------------------------------------------------------------
  // Shift left

  /** `w << b` on u64 */
  function WordShl(w: nat, b: nat): nat {
    Kept(Shifted(w, b), 64)
  }

  /** A shifted word and what falls out of it at the top, `w >> (64 - b)`; that fits into the zeros the
      shift leaves at the bottom of the next word. */
  lemma ShiftedWord(w: nat, b: nat)
    requires w < Pow2(64) && b < 64
    ensures WordShl(w, b) + Shifted(Dropped(w, 64 - b), 64) == Shifted(w, b)
    ensures Dropped(w, 64 - b) < Pow2(b) && WordShl(w, b) + Pow2(b) <= Pow2(64)
  {
    hide Shifted, Dropped, Kept;
    var high, low := Dropped(w, 64 - b), Kept(w, 64 - b);
    SplitAt(w, 64 - b);
    ShiftedSum(Shifted(high, 64 - b), low, b);
    ShiftedTwice(high, 64 - b, b);
    ShiftedTwice(1, 64 - b, b);
    ShiftedLe(low + 1, Pow2(64 - b), b);
    ShiftedSum(low, 1, b);
    ShiftedLe(0, 1, b);
    SplitIsUnique(high, Shifted(low, b), 64);
    HighFits(w, high, b);
  }

  lemma HighFits(w: nat, high: nat, b: nat)
    requires w < Pow2(64) && b < 64 && Shifted(high, 64 - b) <= w
    ensures high < Pow2(b)
  {
    hide Shifted;
    ShiftedTwice(1, b, 64 - b);
    ShiftedLe(Pow2(b), high, 64 - b);
  }

  /** Word `i` of the array `s` shifted left by `b` bits. */
  function ShlWord(s: seq<nat>, i: nat, b: nat): nat
    requires i < |s| && b < 64
  {
    WordShl(s[i], b) + CarryInto(s, i, b)
  }

  function CarryInto(s: seq<nat>, i: nat, b: nat): nat
    requires i <= |s| && b < 64
  {
    if i > 0 then Dropped(s[i - 1], 64 - b) else 0
  }

  /** The first `m` words of the shifted array, and the carry out of them, hold the first `m` words of
      the original shifted. */
  lemma {:induction false} ShlPrefix(s: seq<nat>, r: seq<nat>, b: nat, m: nat)
    requires Words(s) && b < 64 && m <= |r| <= |s|
    requires forall i :: 0 <= i < |r| ==> r[i] == ShlWord(s, i, b)
    ensures Value(r[..m]) + Shifted(CarryInto(s, m, b), 64 * m) == Shifted(Value(s[..m]), b)
  {
    hide Shifted, WordShl, Value;
    if m == 0 {
      ZeroWords(r[..0]);
      ZeroWords(s[..0]);
      ZeroShifted(0);
      ZeroShifted(b);
    } else {
      var w := s[m - 1];
      ShlPrefix(s, r, b, m - 1);
      ShiftedWord(w, b);
      assert r[..m] == r[..m - 1] + [r[m - 1]];
      assert s[..m] == s[..m - 1] + [w];
      ValueSnoc(r[..m - 1], r[m - 1]);
      ValueSnoc(s[..m - 1], w);
      var t := 64 * (m - 1);
      ShiftedSum(WordShl(w, b), CarryInto(s, m - 1, b), t);
      ShiftedSum(WordShl(w, b), Shifted(Dropped(w, 64 - b), 64), t);
      ShiftedTwice(Dropped(w, 64 - b), 64, t);
      ShiftedTwice(w, b, t);
      ShiftedTwice(w, t, b);
      ShiftedSum(Value(s[..m - 1]), Shifted(w, t), b);
    }
  }

  /** Moving whole words up and the rest within words shifts the number, keeping 64 bits per word. */
  lemma ShlValue(s: seq<nat>, r: seq<nat>, k: nat, b: nat)
    requires Words(s) && Words(r) && |r| == |s| && k < |s| && b < 64
    requires forall i :: 0 <= i < k ==> r[i] == 0
    requires forall i :: k <= i < |r| ==> r[i] == ShlWord(s, i - k, b)
    ensures Value(r) == Kept(Shifted(Value(s), 64 * k + b), 64 * |s|)
  {
    hide Shifted, ShlWord, Value, Kept, Dropped, CarryInto;
    var n := |s|;
    var upper, low, top := r[k..], s[..n - k], s[n - k..];
    var carry := CarryInto(s, n - k, b);
    ShlPrefix(s, upper, b, n - k);
    assert upper[..n - k] == upper;
    assert r == r[..k] + upper && s == low + top;
    ZeroWords(r[..k]);
    ValueAppend(r[..k], upper);
    ValueAppend(low, top);
    ShiftedSum(Value(low), Shifted(Value(top), 64 * (n - k)), 64 * k + b);
    ShiftedTwice(Value(low), b, 64 * k);
    ShiftedSum(Value(upper), Shifted(carry, 64 * (n - k)), 64 * k);
    ShiftedTwice(carry, 64 * (n - k), 64 * k);
    ShiftedTwice(Value(top), 64 * (n - k), 64 * k + b);
    ShiftedTwice(Value(top), b, 64 * n);
    ShiftedSum(carry, Shifted(Value(top), b), 64 * n);
    ValueBound(r);
    SplitIsUnique(carry + Shifted(Value(top), b), Value(r), 64 * n);
  }

  /** Without a bit shift nothing is carried, and with one the carry never overflows a word. */
  lemma ShlFits(s: seq<nat>, r: seq<nat>, k: nat, b: nat)
    requires Words(s) && |r| == |s| && k < |s| && b < 64
    requires forall i :: 0 <= i < k ==> r[i] == 0
    requires forall i :: k <= i < |r| ==> r[i] == (if b > 0 then ShlWord(s, i - k, b) else WordShl(s[i - k], b))
    ensures Words(r) && forall i :: k <= i < |r| ==> r[i] == ShlWord(s, i - k, b)
  {
    hide Shifted, WordShl, Dropped;
    ShiftedLe(0, 1, 64);
    ShiftedLe(1, 1, 64);
    forall i | k <= i < |r| ensures r[i] < Pow2(64) && r[i] == ShlWord(s, i - k, b) {
      ShiftedWord(s[i - k], b);
      if i > k {
        ShiftedWord(s[i - k - 1], b);
        if b == 0 { PowZero(); }
      }
      ShiftedLe(1, 1, b);
    }
  }

  /** All bits leave at the top. */
  lemma ShlAll(s: seq<nat>, r: seq<nat>, shift: nat)
    requires |r| == |s| && 64 * |s| <= shift && forall i :: 0 <= i < |r| ==> r[i] == 0
    ensures Words(r) && Value(r) == Kept(Shifted(Value(s), shift), 64 * |s|)
  {
    hide Shifted, Value, Kept, Dropped;
    ShiftedLe(1, 1, 64);
    ZeroWords(r);
    ShiftedTwice(Value(s), shift - 64 * |s|, 64 * |s|);
    ShiftedLe(1, 1, 64 * |s|);
    SplitIsUnique(Shifted(Value(s), shift - 64 * |s|), 0, 64 * |s|);
  }

  /** `shl` */
  method Shl(original: seq<nat>, shift: nat) returns (ret: array<nat>)
    requires Words(original)
    ensures ret.Length == |original| && Words(ret[..])
    ensures Value(ret[..]) == Kept(Shifted(Value(original), shift), 64 * |original|)
  {
    hide Shifted, Value, Kept, Dropped, WordShl;
    var n := |original|;
    ret := new nat[n](i => 0);
    var wordShift, bitShift := shift / 64, shift % 64;
    var i := wordShift;
    while i < n
      invariant wordShift <= i && (i <= n || i == wordShift)
      invariant forall j :: 0 <= j < n && (j < wordShift || i <= j) ==> ret[j] == 0
      invariant forall j :: wordShift <= j < i && j < n ==> ret[j] == WordShl(original[j - wordShift], bitShift)
    {
      ret[i] := WordShl(original[i - wordShift], bitShift);
      i := i + 1;
    }
    if bitShift > 0 {
      i := wordShift + 1;
      while i < n
        invariant wordShift < i && (i <= n || i == wordShift + 1)
        invariant forall j :: 0 <= j < wordShift && j < n ==> ret[j] == 0
        invariant wordShift < n ==> ret[wordShift] == ShlWord(original, 0, bitShift)
        invariant forall j :: wordShift <= j < i && j < n ==> ret[j] == ShlWord(original, j - wordShift, bitShift)
        invariant forall j :: i <= j < n ==> ret[j] == WordShl(original[j - wordShift], bitShift)
      {
        ret[i] := ret[i] + Dropped(original[i - 1 - wordShift], 64 - bitShift);
        i := i + 1;
      }
    }
    if wordShift < n {
      ShlFits(original, ret[..], wordShift, bitShift);
      ShlValue(original, ret[..], wordShift, bitShift);
    } else {
      ShlAll(original, ret[..], shift);
    }
  }

  // -----------------------------------------------------------------------------------------
  // Shift right

  /** Word `i` of the array `s` shifted right by `b` bits. */
  function ShrWord(s: seq<nat>, i: nat, b: nat): nat
    requires i < |s| && b < 64
  {
    Dropped(s[i], b) + (if i + 1 < |s| then BorrowFrom(s, i + 1, b) else 0)
  }

  /** What the word above passes down: `w << (64 - b)`, and nothing without a bit shift. */
  function BorrowFrom(s: seq<nat>, i: nat, b: nat): nat
    requires i < |s| && b < 64
  {
    if b > 0 then WordShl(s[i], 64 - b) else 0
  }

  /** Splitting a word at `b` bits. */
  lemma SplitWord(w: nat, b: nat)
    requires w < Pow2(64) && 0 < b < 64
    ensures WordShl(w, 64 - b) + Shifted(Dropped(w, b), 64) == Shifted(w, 64 - b)
    ensures Dropped(w, b) < Pow2(64 - b) && WordShl(w, 64 - b) + Pow2(64 - b) <= Pow2(64)
  {
    ShiftedWord(w, 64 - b);
  }

  /** The shifted array from word `i` on, and what drops out below, hold the original from word `i` on. */
  lemma {:induction false} ShrSuffix(s: seq<nat>, r: seq<nat>, b: nat, i: nat)
    requires Words(s) && 0 < b < 64 && i < |s| == |r|
    requires forall j :: 0 <= j < |s| ==> r[j] == ShrWord(s, j, b)
    ensures BorrowFrom(s, i, b) + Shifted(Value(r[i..]), 64) == Shifted(Value(s[i..]), 64 - b)
    decreases |s| - i
  {
    hide Shifted, WordShl, Dropped, Value;
    SplitWord(s[i], b);
    ValueFrom(s, i);
    ValueFrom(r, i);
    if i + 1 < |s| {
      ShrSuffix(s, r, b, i + 1);
      ShiftedSum(s[i], Shifted(Value(s[i + 1..]), 64), 64 - b);
      ShiftedTwice(Value(s[i + 1..]), 64, 64 - b);
      ShiftedTwice(Value(s[i + 1..]), 64 - b, 64);
      ShiftedSum(BorrowFrom(s, i + 1, b), Shifted(Value(r[i + 1..]), 64), 64);
      ShiftedSum(Dropped(s[i], b), BorrowFrom(s, i + 1, b) + Shifted(Value(r[i + 1..]), 64), 64);
    } else {
      ZeroWords(s[i + 1..]);
      ZeroWords(r[i + 1..]);
      ZeroShifted(64);
    }
  }

  lemma ValueFrom(s: seq<nat>, i: nat)
    requires i < |s|
    ensures Value(s[i..]) == s[i] + Shifted(Value(s[i + 1..]), 64)
  {
    assert s[i..][1..] == s[i + 1..];
  }

  /** Moving whole words down and the rest within words drops the low bits. */
  lemma ShrValue(s: seq<nat>, r: seq<nat>, k: nat, b: nat)
    requires Words(s) && |r| == |s| && k < |s| && b < 64
    requires forall i :: 0 <= i < |s| - k ==> r[i] == ShrWord(s, i + k, b)
    requires forall i :: |s| - k <= i < |r| ==> r[i] == 0
    ensures Value(r) == Dropped(Value(s), 64 * k + b)
  {
    hide Shifted, ShrWord, Value, Kept, Dropped, BorrowFrom;
    var n := |s|;
    var low, top, moved := s[..k], s[k..], r[..n - k];
    assert s == low + top && r == moved + r[n - k..];
    ZeroWords(r[n - k..]);
    ZeroShifted(64 * (n - k));
    ValueAppend(moved, r[n - k..]);
    ValueAppend(low, top);
    ValueBound(low);
    var rest := TopShifted(top, moved, b, k, s);
    ShiftedSum(rest, Shifted(Value(moved), b), 64 * k);
    ShiftedTwice(Value(moved), b, 64 * k);
    ShiftedTwice(1, b, 64 * k);
    ShiftedLe(rest + 1, Pow2(b), 64 * k);
    ShiftedSum(rest, 1, 64 * k);
    SplitIsUnique(Value(moved), Value(low) + Shifted(rest, 64 * k), 64 * k + b);
  }

  /** The words that stay, split at `b` bits. */
  lemma TopShifted(top: seq<nat>, moved: seq<nat>, b: nat, k: nat, s: seq<nat>) returns (rest: nat)
    requires Words(s) && k < |s| && b < 64 && top == s[k..] && |moved| == |top|
    requires forall i :: 0 <= i < |moved| ==> moved[i] == ShrWord(s, i + k, b)
    ensures Value(top) == rest + Shifted(Value(moved), b) && rest < Pow2(b)
  {
    hide Shifted, Value, Kept, Dropped, WordShl;
    if b == 0 {
      rest := 0;
      forall i | 0 <= i < |moved| ensures moved[i] == top[i] { DroppedByZero(s[i + k]); }
      assert moved == top;
      ShiftedByZero(Value(moved));
      PowZero();
    } else {
      forall i | 0 <= i < |moved| ensures moved[i] == ShrWord(top, i, b) {
        assert top[i] == s[i + k];
      }
      ShrSuffix(top, moved, b, 0);
      assert top[0..] == top && moved[0..] == moved;
      rest := CancelShift(BorrowFrom(top, 0, b), Value(moved), Value(top), top[0], b);
    }
  }

  lemma DroppedByZero(w: nat)
    ensures Dropped(w, 0) == w
  {}

  lemma ShiftedByZero(w: nat)
    ensures Shifted(w, 0) == w
  {}

  lemma CancelShift(borrow: nat, moved: nat, top: nat, w: nat, b: nat) returns (rest: nat)
    requires 0 < b < 64 && w < Pow2(64) && borrow == WordShl(w, 64 - b)
    requires borrow + Shifted(moved, 64) == Shifted(top, 64 - b)
    ensures top == rest + Shifted(moved, b) && rest < Pow2(b)
  {
    hide Shifted, Dropped, Kept, WordShl;
    rest := Kept(w, b);
    SplitAt(w, b);
    SplitWord(w, b);
    ShiftedTwice(Dropped(w, b), b, 64 - b);
    ShiftedSum(Shifted(Dropped(w, b), b), rest, 64 - b);
    ShiftedTwice(moved, b, 64 - b);
    ShiftedSum(rest, Shifted(moved, b), 64 - b);
    ShiftedLe(top, rest + Shifted(moved, b), 64 - b);
  }

  lemma ShrFits(s: seq<nat>, r: seq<nat>, k: nat, b: nat)
    requires Words(s) && |r| == |s| && k < |s| && b < 64
    requires forall i :: 0 <= i < |s| - k ==> r[i] == ShrWord(s, i + k, b)
    requires forall i :: |s| - k <= i < |r| ==> r[i] == 0
    ensures Words(r)
  {
    hide Shifted, WordShl, Dropped;
    ShiftedLe(1, 1, 64);
    forall i | 0 <= i < |s| - k ensures r[i] < Pow2(64) {
      if b == 0 { DroppedByZero(s[i + k]); }
      else {
        SplitWord(s[i + k], b);
        ShiftedLe(1, 1, 64 - b);
        if i + k + 1 < |s| { SplitWord(s[i + k + 1], b); }
        ShiftedTwice(1, 0, 64 - b);
        Pow2Le(64 - b, 64);
      }
    }
  }

  lemma Pow2Le(j: nat, k: nat)
    requires j <= k
    ensures Pow2(j) <= Pow2(k)
  {
    ShiftedTwice(1, j, k - j);
    ShiftedLe(Pow2(j), Pow2(j), k - j);
  }

  /** All bits leave at the bottom. */
  lemma ShrAll(s: seq<nat>, r: seq<nat>, shift: nat)
    requires Words(s) && |r| == |s| && 64 * |s| <= shift && forall i :: 0 <= i < |r| ==> r[i] == 0
    ensures Words(r) && Value(r) == Dropped(Value(s), shift)
  {
    hide Shifted, Value, Kept, Dropped;
    ShiftedLe(1, 1, 64);
    ZeroWords(r);
    ZeroShifted(shift);
    ValueBound(s);
    Pow2Le(64 * |s|, shift);
    SplitIsUnique(0, Value(s), shift);
  }

  /** `shr` */
  method Shr(original: seq<nat>, shift: nat) returns (ret: array<nat>)
    requires Words(original)
    ensures ret.Length == |original| && Words(ret[..])
    ensures Value(ret[..]) == Dropped(Value(original), shift)
  {
    hide Shifted, Value, Kept, Dropped, WordShl;
    var n := |original|;
    ret := new nat[n](i => 0);
    var wordShift, bitShift := shift / 64, shift % 64;
    var i := wordShift;
    while i < n
      invariant wordShift <= i && (i <= n || i == wordShift)
      invariant forall j :: 0 <= j < i - wordShift ==> ret[j] == Dropped(original[j + wordShift], bitShift)
      invariant forall j :: i - wordShift <= j < n ==> ret[j] == 0
    {
      ret[i - wordShift] := Dropped(original[i], bitShift);
      i := i + 1;
    }
    if bitShift > 0 {
      i := wordShift + 1;
      while i < n
        invariant wordShift < i && (i <= n || i == wordShift + 1)
        invariant forall j :: 0 <= j < i - wordShift - 1 ==> ret[j] == ShrWord(original, j + wordShift, bitShift)
        invariant forall j :: i - wordShift - 1 <= j < n - wordShift ==> ret[j] == Dropped(original[j + wordShift], bitShift)
        invariant forall j :: 0 <= j < n && n - wordShift <= j ==> ret[j] == 0
      {
        ret[i - wordShift - 1] := ret[i - wordShift - 1] + WordShl(original[i], 64 - bitShift);
        i := i + 1;
      }
    }
    if wordShift < n {
      ShrFits(original, ret[..], wordShift, bitShift);
      ShrValue(original, ret[..], wordShift, bitShift);
    } else {
      ShrAll(original, ret[..], shift);
    }
  }

  // -----------------------------------------------------------------------------------------
  // Single bits

  /** A bit of the number is a bit of one of its words. */
  lemma {:induction false} BitOfValue(s: seq<nat>, k: nat)
    requires Words(s)
    ensures Bit(Value(s), k) <==> k < 64 * |s| && Bit(s[k / 64], k % 64)
  {
    hide Shifted;
    if s == [] {
      NoBits(0, k);
    } else {
      var rest := Value(s[1..]);
      SplitIsUnique(rest, s[0], 64);
      if k < 64 {
        BitOfKept(Value(s), 64, k);
      } else {
        BitOfDropped(Value(s), 64, k - 64);
        BitOfValue(s[1..], k - 64);
        assert (k - 64) / 64 == k / 64 - 1 && (k - 64) % 64 == k % 64;
      }
    }
  }

  /** `bit` */
  method BitAt(s: seq<nat>, index: nat) returns (isSet: bool)
    requires Words(s) && index < 64 * |s|
    ensures isSet == Bit(Value(s), index)
  {
    BitOfValue(s, index);
    isSet := Bit(s[index / 64], index % 64);
  }

  /** `x ^ y` on u64, bit by bit */
  function WordXor(x: nat, y: nat): nat
    decreases x + y
  {
    if x == 0 && y == 0 then 0 else (x % 2 + y % 2) % 2 + 2 * WordXor(x / 2, y / 2)
  }

  lemma {:induction false} BitOfXor(x: nat, y: nat, k: nat)
    ensures Bit(WordXor(x, y), k) <==> Bit(x, k) != Bit(y, k)
    decreases k
  {
    if x == 0 && y == 0 {
      NoBits(0, k);
    } else if k > 0 {
      BitOfXor(x / 2, y / 2, k - 1);
    }
  }

  lemma {:induction false} XorFits(x: nat, y: nat, n: nat)
    requires x < Pow2(n) && y < Pow2(n)
    ensures WordXor(x, y) < Pow2(n)
  {
    if n > 0 && (x > 0 || y > 0) { XorFits(x / 2, y / 2, n - 1); }
    ShiftedLe(1, 1, n);
  }

  /** `bitxor` */
  method BitXor(s: seq<nat>, t: seq<nat>) returns (ret: array<nat>)
    requires Words(s) && Words(t) && |s| == |t|
    ensures ret.Length == |s| && Words(ret[..])
    ensures forall k: nat :: Bit(Value(ret[..]), k) <==> Bit(Value(s), k) != Bit(Value(t), k)
  {
    hide Shifted, Value, WordXor, Bit;
    var n := |s|;
    ret := new nat[n](i => 0);
    for i := 0 to n
      invariant forall j :: 0 <= j < i ==> ret[j] == WordXor(s[j], t[j])
      invariant forall j :: 0 <= j < i ==> ret[j] < Pow2(64)
    {
      XorFits(s[i], t[i], 64);
      ret[i] := WordXor(s[i], t[i]);
    }
    forall k: nat ensures Bit(Value(ret[..]), k) <==> Bit(Value(s), k) != Bit(Value(t), k) {
      BitOfValue(ret[..], k);
      BitOfValue(s, k);
      BitOfValue(t, k);
      if k < 64 * n { BitOfXor(s[k / 64], t[k / 64], k % 64); }
    }
  }

  /** `one` */
  method One(n: nat) returns (words: array<nat>)
    requires 0 < n
    ensures words.Length == n && Words(words[..]) && Value(words[..]) == 1
  {
    hide Shifted;
    words := new nat[n](i => 0);
    words[0] := 1;
    ZeroWords(words[1..]);
    ZeroShifted(64);
    assert words[..][1..] == words[1..];
    assert 1 < Pow2(64) by { WordIsPow2(); }
  }

  lemma OnlyBit(k: nat, j: nat)
    ensures Bit(Pow2(k), j) <==> j == k
  {
    BitOfShifted(1, k, j);
    if j > k { NoBits(0, j - k - 1); }
  }

  /** `bitmap ^ (one << k)`: exactly bit `k` is toggled. */
  method FlipBit(s: seq<nat>, k: nat) returns (ret: array<nat>)
    requires Words(s) && k < 64 * |s|
    ensures ret.Length == |s| && Words(ret[..])
    ensures forall j: nat :: Bit(Value(ret[..]), j) <==> Bit(Value(s), j) != (j == k)
  {
    hide Shifted, Value, Bit;
    var one := One(|s|);
    var mask := Shl(one[..], k);
    ret := BitXor(s, mask[..]);
    Pow2Fits(k, 64 * |s|);
    forall j: nat ensures Bit(Value(ret[..]), j) <==> Bit(Value(s), j) != (j == k) {
      OnlyBit(k, j);
    }
  }

  lemma Pow2Fits(k: nat, n: nat)
    requires k < n
    ensures Kept(Pow2(k), n) == Pow2(k)
  {
    hide Shifted, Kept, Dropped;
    Pow2Le(k + 1, n);
    ShiftedTwice(1, k, 1);
    ShiftedOnce(Pow2(k));
    ShiftedLe(1, 1, k);
    ZeroShifted(n);
    SplitIsUnique(0, Pow2(k), n);
  }

  lemma ShiftedOnce(v: nat)
    ensures Shifted(v, 1) == 2 * v
  {}

  // -----------------------------------------------------------------------------------------
  // Counting zeros

  /** `is_zero` */
  method IsZero(s: seq<nat>) returns (zero: bool)
    requires Words(s)
    ensures zero == (Value(s) == 0)
  {
    for i := 0 to |s|
      invariant forall j :: 0 <= j < i ==> s[j] == 0
    {
      if s[i] != 0 {
        NonZeroWord(s, i);
        return false;
      }
    }
    ZeroWords(s);
    return true;
  }

  lemma {:induction false} NonZeroWord(s: seq<nat>, i: nat)
    requires i < |s| && s[i] != 0
    ensures Value(s) != 0
  {
    if i > 0 {
      NonZeroWord(s[1..], i - 1);
      ShiftedLe(1, 1, 64);
      hide Shifted;
      ShiftedLe(0, Value(s[1..]), 64);
    }
  }

  lemma {:induction false} WidthOfShifted(v: nat, low: nat, k: nat)
    requires 0 < v && low < Pow2(k)
    ensures Width(low + Shifted(v, k)) == Width(v) + k
  {
    if k > 0 {
      WidthOfShifted(v, low / 2, k - 1);
      assert (low + Shifted(v, k)) / 2 == low / 2 + Shifted(v, k - 1);
      ShiftedLe(v, v, k);
    }
  }

  lemma {:induction false} ZerosOfShifted(v: nat, k: nat)
    requires 0 < v
    ensures 0 < Shifted(v, k) && Zeros(Shifted(v, k)) == Zeros(v) + k
  {
    if k > 0 { ZerosOfShifted(v, k - 1); }
  }

  /** With `w` the highest non-zero word, the width of the number is that of `w` and the words below. */
  lemma WidthOfValue(s: seq<nat>, i: nat)
    requires Words(s) && i < |s| && s[i] != 0 && forall j :: i < j < |s| ==> s[j] == 0
    ensures Width(Value(s)) == Width(s[i]) + 64 * i
  {
    hide Shifted, Width, Value;
    assert s == s[..i + 1] + s[i + 1..] && s[..i + 1] == s[..i] + [s[i]];
    ZeroWords(s[i + 1..]);
    ValueAppend(s[..i + 1], s[i + 1..]);
    ZeroShifted(64 * (i + 1));
    ValueSnoc(s[..i], s[i]);
    ValueBound(s[..i]);
    WidthOfShifted(s[i], Value(s[..i]), 64 * i);
  }

  lemma ZerosOfSum(w: nat, v: nat, k: nat)
    requires 0 < w < Pow2(k)
    ensures w + Shifted(v, k) > 0 && Zeros(w + Shifted(v, k)) == Zeros(w)
    decreases k
  {
    if k > 0 && w % 2 == 0 {
      ZerosOfSum(w / 2, v, k - 1);
      assert (w + Shifted(v, k)) / 2 == w / 2 + Shifted(v, k - 1);
    }
  }

  /** With `w` the lowest non-zero word, likewise for the zeros below. */
  lemma ZerosOfValue(s: seq<nat>, i: nat)
    requires Words(s) && i < |s| && s[i] != 0 && forall j :: 0 <= j < i ==> s[j] == 0
    ensures Value(s) > 0 && Zeros(Value(s)) == Zeros(s[i]) + 64 * i
  {
    hide Shifted, Zeros, Value;
    assert s == s[..i] + s[i..];
    ZeroWords(s[..i]);
    ValueAppend(s[..i], s[i..]);
    ValueFrom(s, i);
    ZerosOfSum(s[i], Value(s[i + 1..]), 64);
    ZerosOfShifted(Value(s[i..]), 64 * i);
  }

  /** `leading_zeros`: counted from the top of the last word. */
  method LeadingZeros(s: seq<nat>) returns (r: nat)
    requires Words(s)
    ensures r == 64 * |s| - Width(Value(s))
  {
    hide Shifted, Value, Width;
    r := 0;
    for i := 0 to |s|
      invariant r == 64 * i
      invariant forall j :: |s| - i <= j < |s| ==> s[j] == 0
    {
      var w := s[|s| - i - 1];
      if w == 0 {
        r := r + 64;
      } else {
        WidthOfValue(s, |s| - i - 1);
        WidthWithin(w, 64);
        r := r + (64 - Width(w));
        return;
      }
    }
    ZeroWords(s);
    WidthOfZero();
  }

  lemma WidthOfZero()
    ensures Width(0) == 0
  {}

  /** `trailing_zeros` */
  method TrailingZeros(s: seq<nat>) returns (r: nat)
    requires Words(s)
    ensures r == if Value(s) == 0 then 64 * |s| else Zeros(Value(s))
  {
    hide Shifted, Value, Zeros;
    r := 0;
    for i := 0 to |s|
      invariant r == 64 * i
      invariant forall j :: 0 <= j < i ==> s[j] == 0
    {
      var w := s[i];
      if w == 0 {
        r := r + 64;
      } else {
        ZerosOfValue(s, i);
        r := r + Zeros(w);
        return;
      }
    }
    ZeroWords(s);
  }

  // -----------------------------------------------------------------------------------------
  // Searching for the nearest bit

  /** The highest set bit at or below `p`. */
  ghost predicate HighestUpTo(v: nat, p: nat, k: nat) {
    k <= p && Bit(v, k) && forall j :: k < j <= p ==> !Bit(v, j)
  }

  /** The lowest set bit at or above `p`. */
  ghost predicate LowestFrom(v: nat, p: nat, k: nat) {
    p <= k && Bit(v, k) && forall j :: p <= j < k ==> !Bit(v, j)
  }

  /** Shifting bit `p` to the top and counting leading zeros finds the nearest set bit below. */
  lemma LeadingZerosFindsHighest(v: nat, p: nat, n: nat)
    requires p < n && v < Pow2(n)
    ensures var x := Kept(Shifted(v, n - 1 - p), n);
            if x == 0 then forall j :: 0 <= j <= p ==> !Bit(v, j)
            else n - Width(x) <= p && HighestUpTo(v, p, p - (n - Width(x)))
  {
    hide Shifted, Kept, Bit, Width;
    var s := n - 1 - p;
    var x := Kept(Shifted(v, s), n);
    forall j: nat ensures Bit(x, j) <==> s <= j < n && Bit(v, j - s) {
      BitOfKept(Shifted(v, s), n, j);
      BitOfShifted(v, s, j);
    }
    if x == 0 {
      forall j | 0 <= j <= p ensures !Bit(v, j) { NoBits(x, j + s); }
    } else {
      WidthIsHighest(x);
      assert Bit(x, Width(x) - 1);
      forall j | p - (n - Width(x)) < j <= p ensures !Bit(v, j) { NoBitsAbove(x, j + s); }
    }
  }

  /** Shifting bit `p` to the bottom and counting trailing zeros finds the nearest set bit above. */
  lemma TrailingZerosFindsLowest(v: nat, p: nat)
    ensures var x := Dropped(v, p);
            if x == 0 then forall j :: p <= j ==> !Bit(v, j) else LowestFrom(v, p, p + Zeros(x))
  {
    hide Dropped, Bit, Zeros;
    var x := Dropped(v, p);
    forall j: nat ensures Bit(x, j) <==> Bit(v, p + j) { BitOfDropped(v, p, j); }
    if x == 0 {
      forall j | p <= j ensures !Bit(v, j) { NoBits(x, j - p); }
    } else {
      ZerosIsLowest(x);
      forall j | p <= j < p + Zeros(x) ensures !Bit(v, j) { assert !Bit(x, j - p); }
    }
  }
}
