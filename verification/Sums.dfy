/** Finite sums over sequences of terms, used for "the sum over all positions". */
module Sums {

  /** The sum of the first `n` terms. */
  function SumTo(s: seq<int>, n: nat): int
    requires n <= |s|
  {
    if n == 0 then 0 else SumTo(s, n - 1) + s[n - 1]
  }

  function Sum(s: seq<int>): int {
    SumTo(s, |s|)
  }

  lemma {:induction false} SumToLe(s: seq<int>, t: seq<int>, n: nat)
    requires n <= |s| && n <= |t|
    requires forall k :: 0 <= k < n ==> s[k] <= t[k]
    ensures SumTo(s, n) <= SumTo(t, n)
  {
    if n > 0 { SumToLe(s, t, n - 1); }
  }

  lemma SumLe(s: seq<int>, t: seq<int>)
    requires |s| == |t| && forall k :: 0 <= k < |s| ==> s[k] <= t[k]
    ensures Sum(s) <= Sum(t)
  {
    SumToLe(s, t, |s|);
  }

  lemma {:induction false} SumToNonNegative(s: seq<int>, n: nat)
    requires n <= |s| && forall k :: 0 <= k < n ==> 0 <= s[k]
    ensures 0 <= SumTo(s, n)
  {
    if n > 0 { SumToNonNegative(s, n - 1); }
  }

  lemma {:induction false} SumToPoint(s: seq<int>, t: seq<int>, n: nat, j: nat)
    requires j < n <= |s| && n <= |t|
    requires forall k :: 0 <= k < n && k != j ==> s[k] == t[k]
    ensures SumTo(t, n) == SumTo(s, n) + t[j] - s[j]
  {
    if j == n - 1 {
      SumToLe(s, t, n - 1);
      SumToLe(t, s, n - 1);
    } else {
      SumToPoint(s, t, n - 1, j);
    }
  }

  /** Changing one term changes the sum by that much. */
  lemma SumPoint(s: seq<int>, t: seq<int>, j: nat)
    requires j < |s| == |t|
    requires forall k :: 0 <= k < |s| && k != j ==> s[k] == t[k]
    ensures Sum(t) == Sum(s) + t[j] - s[j]
  {
    SumToPoint(s, t, |s|, j);
  }

  /** One more term at the end. */
  lemma SumAppend(s: seq<int>, x: int)
    ensures Sum(s + [x]) == Sum(s) + x
  {
    SumToLe(s, s + [x], |s|);
    SumToLe(s + [x], s, |s|);
  }

  /** A non-negative term is no larger than a sum of non-negative terms. */
  lemma {:induction false} TermAtMostSum(s: seq<int>, j: nat)
    requires j < |s| && forall k :: 0 <= k < |s| ==> 0 <= s[k]
    ensures 0 <= s[j] <= Sum(s)
  {
    var rest := s[j := 0];
    SumPoint(s, rest, j);
    SumToNonNegative(rest, |rest|);
  }

  lemma {:induction false} SumToAddScaled(s: seq<int>, t: seq<int>, w: seq<int>, c: int, n: nat)
    requires n <= |s| && n <= |t| && n <= |w|
    requires forall k :: 0 <= k < n ==> t[k] == s[k] + c * w[k]
    ensures SumTo(t, n) == SumTo(s, n) + c * SumTo(w, n)
  {
    if n > 0 {
      SumToAddScaled(s, t, w, c, n - 1);
      assert c * (SumTo(w, n - 1) + w[n - 1]) == c * SumTo(w, n - 1) + c * w[n - 1];
    }
  }

  /** Terms that each change by `c` times a weight. */
  lemma SumAddScaled(s: seq<int>, t: seq<int>, w: seq<int>, c: int)
    requires |s| == |t| == |w| && forall k :: 0 <= k < |s| ==> t[k] == s[k] + c * w[k]
    ensures Sum(t) == Sum(s) + c * Sum(w)
  {
    SumToAddScaled(s, t, w, c, |s|);
  }

  /** The sum of `f` over the first `m` members that belong to group `j`. */
  function GroupTo(group: seq<int>, f: seq<int>, j: int, m: nat): int
    requires m <= |group| && |group| == |f|
  {
    if m == 0 then 0 else GroupTo(group, f, j, m - 1) + (if group[m - 1] == j then f[m - 1] else 0)
  }

  function Group(group: seq<int>, f: seq<int>, j: int): int
    requires |group| == |f|
  {
    GroupTo(group, f, j, |group|)
  }

  lemma {:induction false} GroupToPoint(group: seq<int>, f: seq<int>, g: seq<int>, j: int, i: nat, m: nat)
    requires i < m <= |group| == |f| == |g|
    requires forall k :: 0 <= k < m && k != i ==> f[k] == g[k]
    ensures GroupTo(group, g, j, m) == GroupTo(group, f, j, m) + (if group[i] == j then g[i] - f[i] else 0)
  {
    if i == m - 1 { GroupToSame(group, f, g, j, m - 1); } else { GroupToPoint(group, f, g, j, i, m - 1); }
  }

  lemma {:induction false} GroupToSame(group: seq<int>, f: seq<int>, g: seq<int>, j: int, m: nat)
    requires m <= |group| == |f| == |g|
    requires forall k :: 0 <= k < m ==> f[k] == g[k]
    ensures GroupTo(group, g, j, m) == GroupTo(group, f, j, m)
  {
    if m > 0 { GroupToSame(group, f, g, j, m - 1); }
  }

  lemma {:induction false} GroupToPrefix(group: seq<int>, f: seq<int>, group': seq<int>, f': seq<int>, j: int, m: nat)
    requires m <= |group| == |f| && m <= |group'| == |f'|
    requires forall k :: 0 <= k < m ==> group[k] == group'[k] && f[k] == f'[k]
    ensures GroupTo(group, f, j, m) == GroupTo(group', f', j, m)
  {
    if m > 0 { GroupToPrefix(group, f, group', f', j, m - 1); }
  }

  lemma {:induction false} MemberAtMostGroup(group: seq<int>, f: seq<int>, i: nat, m: nat)
    requires m <= |group| == |f| && i < |group| && forall k :: 0 <= k < |f| ==> 0 <= f[k]
    ensures 0 <= GroupTo(group, f, group[i], m)
    ensures i < m ==> f[i] <= GroupTo(group, f, group[i], m)
  {
    if m > 0 { MemberAtMostGroup(group, f, i, m - 1); }
  }

  /** If `picked[i]` is `f[i]` for members of picked groups, and no group holds more than its
      limit, then the picked members hold no more than the picked limits. */
  lemma {:induction false} PickedMembersAtMostPickedGroups(
      group: seq<int>, f: seq<int>, limit: seq<int>, pick: seq<bool>, picked: seq<int>, pickedLimit: seq<int>)
    requires |group| == |f| == |picked| && |limit| == |pick| == |pickedLimit|
    requires forall i :: 0 <= i < |group| ==> 0 <= group[i] < |limit|
    requires forall i :: 0 <= i < |group| ==> picked[i] == if pick[group[i]] then f[i] else 0
    requires forall j :: 0 <= j < |limit| ==> pickedLimit[j] == if pick[j] then limit[j] else 0
    requires forall j :: 0 <= j < |limit| ==> Group(group, f, j) <= limit[j]
    ensures Sum(picked) <= Sum(pickedLimit)
  {
    var byGroup := PickedGroups(group, f, pick, |group|);
    PickedSumByGroup(group, f, pick, picked, |group|);
    SumLe(byGroup, pickedLimit);
  }

  function PickedGroups(group: seq<int>, f: seq<int>, pick: seq<bool>, m: nat): (r: seq<int>)
    requires m <= |group| && |group| == |f|
    ensures |r| == |pick|
    ensures forall j :: 0 <= j < |r| ==> r[j] == if pick[j] then GroupTo(group, f, j, m) else 0
  {
    seq(|pick|, j requires 0 <= j < |pick| => if pick[j] then GroupTo(group, f, j, m) else 0)
  }

  lemma {:induction false} PickedSumByGroup(group: seq<int>, f: seq<int>, pick: seq<bool>, picked: seq<int>, m: nat)
    requires m <= |group| == |f| == |picked|
    requires forall i :: 0 <= i < |group| ==> 0 <= group[i] < |pick|
    requires forall i :: 0 <= i < |group| ==> picked[i] == if pick[group[i]] then f[i] else 0
    ensures SumTo(picked, m) == Sum(PickedGroups(group, f, pick, m))
  {
    var after := PickedGroups(group, f, pick, m);
    if m == 0 {
      var zero := seq(|pick|, j requires 0 <= j < |pick| => 0);
      assert after == zero;
      SumAddScaled(zero, zero, zero, -1);
    } else {
      PickedSumByGroup(group, f, pick, picked, m - 1);
      SumPoint(PickedGroups(group, f, pick, m - 1), after, group[m - 1]);
    }
  }

  // The same for real-valued terms.

  function RealSumTo(s: seq<real>, n: nat): real
    requires n <= |s|
  {
    if n == 0 then 0.0 else RealSumTo(s, n - 1) + s[n - 1]
  }

  function RealSum(s: seq<real>): real {
    RealSumTo(s, |s|)
  }

  lemma {:induction false} RealSumToSame(s: seq<real>, t: seq<real>, n: nat)
    requires n <= |s| && n <= |t|
    requires forall k :: 0 <= k < n ==> s[k] == t[k]
    ensures RealSumTo(s, n) == RealSumTo(t, n)
  {
    if n > 0 { RealSumToSame(s, t, n - 1); }
  }

  lemma {:induction false} RealSumToPoint(s: seq<real>, t: seq<real>, n: nat, j: nat)
    requires j < n <= |s| && n <= |t|
    requires forall k :: 0 <= k < n && k != j ==> s[k] == t[k]
    ensures RealSumTo(t, n) == RealSumTo(s, n) + t[j] - s[j]
  {
    if j == n - 1 { RealSumToSame(s, t, n - 1); } else { RealSumToPoint(s, t, n - 1, j); }
  }

  lemma RealSumPoint(s: seq<real>, t: seq<real>, j: nat)
    requires j < |s| == |t|
    requires forall k :: 0 <= k < |s| && k != j ==> s[k] == t[k]
    ensures RealSum(t) == RealSum(s) + t[j] - s[j]
  {
    RealSumToPoint(s, t, |s|, j);
  }

  lemma RealSumAppend(s: seq<real>, x: real)
    ensures RealSum(s + [x]) == RealSum(s) + x
  {
    RealSumToSame(s, s + [x], |s|);
  }

  /** `n` units of size `unit`, added up one by one: the product, kept away from the solver. */
  function Share(n: nat, unit: real): real {
    if n == 0 then 0.0 else Share(n - 1, unit) + unit
  }

  lemma {:induction false} ShareIsProduct(n: nat, unit: real)
    ensures Share(n, unit) == n as real * unit
  {
    if n > 0 {
      ShareIsProduct(n - 1, unit);
      OneMoreUnit((n - 1) as real, unit);
    }
  }

  lemma OneMoreUnit(n: real, unit: real)
    ensures (n + 1.0) * unit == n * unit + unit
  {}

  lemma {:induction false} ShareAdd(m: nat, n: nat, unit: real)
    ensures Share(m + n, unit) == Share(m, unit) + Share(n, unit)
  {
    if n > 0 { ShareAdd(m, n - 1, unit); }
  }

  lemma {:induction false} ShareOfSum(n: nat, unit: real, unit': real)
    ensures Share(n, unit + unit') == Share(n, unit) + Share(n, unit')
  {
    if n > 0 { ShareOfSum(n - 1, unit, unit'); }
  }

  /** Terms that each change by as many units as their weight says. */
  lemma {:induction false} RealSumToShift(s: seq<real>, t: seq<real>, w: seq<int>, unit: real, n: nat)
    requires n <= |s| && n <= |t| && n <= |w|
    requires forall k :: 0 <= k < n ==> 0 <= w[k] && t[k] == s[k] + Share(w[k], unit)
    ensures 0 <= SumTo(w, n) && RealSumTo(t, n) == RealSumTo(s, n) + Share(SumTo(w, n), unit)
  {
    if n > 0 {
      RealSumToShift(s, t, w, unit, n - 1);
      ShareAdd(SumTo(w, n - 1), w[n - 1], unit);
    }
  }

  lemma {:induction false} FloorsBelow(s: seq<int>, t: seq<real>, n: nat)
    requires n <= |s| && n <= |t|
    requires forall k :: 0 <= k < n ==> s[k] as real <= t[k]
    ensures SumTo(s, n) as real <= RealSumTo(t, n)
  {
    if n > 0 { FloorsBelow(s, t, n - 1); }
  }
}
