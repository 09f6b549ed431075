/**
 The LCP array by interval refinement (examples/suffix_sorting/construct_lcp.hpp), for texts whose
 last character is smaller than all others.

 Every round flags the places between different intervals and then refines the intervals one step
 along the LF mapping.  A refined list keeps no boundary of the list before it, so boundaries come and
 go; what every round keeps is that a boundary at a place whose LCP is at least the round number is
 there exactly when the LCP equals it.
 */
module LongestCommonPrefix {
  import opened IntervalNumbers
  import opened Lists
  import opened Suffixes
  import opened BurrowsWheeler
  import opened CyclicShifts

  datatype IndexFlag = IndexFlag(index: nat, flag: bool)

  // ---------------------------------------------------------------- the pipelines

  function ZipRanks(inverse: seq<nat>, intervals: seq<nat>): (r: seq<IndexRank>)
    requires |inverse| == |intervals|
    ensures |r| == |inverse|
  {
    seq(|inverse|, i requires 0 <= i < |inverse| => IndexRank(inverse[i], intervals[i]))
  }

  /** The interval numbers carried along the inverse transform and numbered anew. */
  function Refine(inverse: seq<nat>, intervals: seq<nat>): (r: seq<nat>)
    requires |inverse| == |intervals|
    ensures |inverse| >= 2 ==> |r| == |inverse|
  {
    Intervals(Map(RankOf, Sort(ZipRanks(inverse, intervals), ByIndex)))
  }

  /** Flags the unflagged places where the interval changes with the current LCP value. */
  function FlagChanges(intervals: seq<nat>, lcp: seq<IndexFlag>, lcpValue: nat): (r: seq<IndexFlag>)
    requires |intervals| == |lcp| >= 2
    ensures |r| == |lcp|
  {
    seq(|lcp|, j requires 0 <= j < |lcp| =>
      if j == 0 then IndexFlag(0, true)
      else if intervals[j - 1] != intervals[j] && !lcp[j].flag then IndexFlag(lcpValue, true)
      else lcp[j])
  }

  function LcpIndex(x: IndexFlag): nat { x.index }

  // ---------------------------------------------------------------- the refinement step

  /** The interval numbers in the order the refinement looks at them. */
  ghost function Carried(back: seq<nat>, intervals: seq<nat>): (w: seq<nat>)
    requires IsPerm(back, |intervals|)
    ensures |w| == |intervals|
  {
    seq(|intervals|, j requires 0 <= j < |intervals| => intervals[back[j]])
  }

  lemma RefineIsCarried(f: seq<nat>, back: seq<nat>, intervals: seq<nat>)
    requires IsPerm(f, |intervals|) && back == Inverse(f, |intervals|)
    ensures Refine(f, intervals) == Intervals(Carried(back, intervals))
  {
    var n := |intervals|;
    var z := ZipRanks(f, intervals);
    var w := seq(n, j requires 0 <= j < n => IndexRank(j, intervals[back[j]]));
    RearrangedMultiset(z, w, f);
    SortByNumber(z, w, IndexOf, ByIndex);
    assert Map(RankOf, w) == Carried(back, intervals);
  }

  /** The rank of the suffix after the one of rank `j`, wrapping at the end of the text. */
  ghost function Psi(t: Text, sa: seq<nat>): (p: seq<nat>)
    requires |t| > 0 && IsPerm(sa, |t|)
    ensures IsPerm(p, |t|)
  {
    LFIsPerm(t, sa);
    Inverse(LF(t, sa), |t|)
  }

  lemma PsiAt(t: Text, sa: seq<nat>, j: nat)
    requires |t| > 0 && IsPerm(sa, |t|) && j < |t|
    ensures Psi(t, sa)[j] == Inverse(sa, |t|)[Step(|t|, sa[j])]
    ensures sa[Psi(t, sa)[j]] == Step(|t|, sa[j])
  {
    LFIsPerm(t, sa);
    var r := Psi(t, sa)[j];
    assert LF(t, sa)[r] == j;
    LFAt(t, sa, r);
    assert sa[Inverse(sa, |t|)[Step(|t|, sa[j])]] == Step(|t|, sa[j]);
  }

  /** The interval list after `k` refinements. */
  ghost function Round(t: Text, sa: seq<nat>, k: nat): (r: seq<nat>)
    requires |t| >= 2 && IsPerm(sa, |t|)
    ensures |r| == |t|
    decreases k
  {
    if k == 0 then Intervals(FirstChars(t, sa)) else Intervals(Carried(Psi(t, sa), Round(t, sa, k - 1)))
  }

  ghost function FirstChars(t: Text, sa: seq<nat>): (r: seq<nat>)
    requires IsPerm(sa, |t|)
    ensures |r| == |t|
  {
    seq(|t|, i requires 0 <= i < |t| => t[sa[i]])
  }

  /** The list whose changes start the intervals of round `k`. */
  ghost function Source(t: Text, sa: seq<nat>, k: nat): (w: seq<nat>)
    requires |t| >= 2 && IsPerm(sa, |t|)
    ensures |w| == |t| && Round(t, sa, k) == Intervals(w)
  {
    if k == 0 then FirstChars(t, sa) else Carried(Psi(t, sa), Round(t, sa, k - 1))
  }

  // ---------------------------------------------------------------- longest common prefixes

  /** The length of the longest common prefix of two suffixes. */
  ghost function CommonPrefix(t: Text, i: nat, j: nat): nat
    decreases |t| - j
  {
    if i < |t| && j < |t| && t[i] == t[j] then 1 + CommonPrefix(t, i + 1, j + 1) else 0
  }

  /** The common prefix is common, and goes no further. */
  lemma {:induction false} CommonPrefixIsLongest(t: Text, i: nat, j: nat)
    requires i <= |t| && j <= |t|
    ensures var k := CommonPrefix(t, i, j);
            && i + k <= |t| && j + k <= |t| && t[i..i + k] == t[j..j + k]
            && (i + k == |t| || j + k == |t| || t[i + k] != t[j + k])
    decreases |t| - j
  {
    if i < |t| && j < |t| && t[i] == t[j] {
      CommonPrefixIsLongest(t, i + 1, j + 1);
      var k := CommonPrefix(t, i + 1, j + 1);
      assert t[i..i + 1 + k] == [t[i]] + t[i + 1..i + 1 + k];
      assert t[j..j + 1 + k] == [t[j]] + t[j + 1..j + 1 + k];
    }
  }

  /** The LCP array: place `j` holds the common prefix length of the suffixes of ranks j-1 and j. */
  ghost function Lcp(t: Text, sa: seq<nat>, j: nat): nat
    requires j < |sa|
  {
    if j == 0 then 0 else CommonPrefix(t, sa[j - 1], sa[j])
  }

  lemma {:induction false} CommonPrefixMin(t: Text, x: nat, y: nat, z: nat)
    requires SufLess(t, x, y) && SufLess(t, y, z)
    ensures CommonPrefix(t, x, z) ==
            if CommonPrefix(t, x, y) < CommonPrefix(t, y, z) then CommonPrefix(t, x, y) else CommonPrefix(t, y, z)
    decreases |t| - z
  {
    if x < |t| && t[x] == t[y] == t[z] { CommonPrefixMin(t, x + 1, y + 1, z + 1); }
  }

  /** Over a range of ranks, the smallest LCP is the common prefix length of the two ends. */
  lemma {:induction false} LcpRange(t: Text, sa: seq<nat>, a: nat, b: nat) returns (m: nat)
    requires IsSuffixArray(t, sa) && a < b < |t|
    ensures a < m <= b && Lcp(t, sa, m) == CommonPrefix(t, sa[a], sa[b])
    ensures forall x: nat | a < x <= b :: Lcp(t, sa, x) >= CommonPrefix(t, sa[a], sa[b])
    decreases b - a
  {
    m := b;
    if a + 1 < b {
      var m' := LcpRange(t, sa, a, b - 1);
      assert SufLess(t, sa[a], sa[b - 1]) && SufLess(t, sa[b - 1], sa[b]);
      CommonPrefixMin(t, sa[a], sa[b - 1], sa[b]);
      if Lcp(t, sa, m') < Lcp(t, sa, b) { m := m'; }
    }
  }

  // ---------------------------------------------------------------- what every round keeps

  /** Suffixes with a common first character continue in the same order, away from the text end. */
  lemma StepInOrder(t: Text, sa: seq<nat>, j: nat) returns (a: nat, b: nat)
    requires UniqueSmallestLast(t) && IsSuffixArray(t, sa) && 0 < j < |t| && t[sa[j - 1]] == t[sa[j]]
    ensures a == Psi(t, sa)[j - 1] && b == Psi(t, sa)[j]
    ensures a < b < |t| && Lcp(t, sa, j) == 1 + CommonPrefix(t, sa[a], sa[b])
  {
    var u, v := sa[j - 1], sa[j];
    assert u != v;
    a, b := Psi(t, sa)[j - 1], Psi(t, sa)[j];
    PsiAt(t, sa, j - 1);
    PsiAt(t, sa, j);
    assert sa[a] == u + 1 && sa[b] == v + 1;
    assert SufLess(t, u, v);
    RankOrder(t, sa, a, b);
  }

  ghost predicate ExactAt(t: Text, sa: seq<nat>, k: nat, j: nat)
    requires |t| >= 2 && IsPerm(sa, |t|) && 0 < j < |t|
  {
    Lcp(t, sa, j) >= k ==> (BoundaryAt(Round(t, sa, k), j) <==> Lcp(t, sa, j) == k)
  }

  /** Over a range of ranks, an exact round has a boundary when the smallest LCP is the round number. */
  lemma BoundaryInRange(t: Text, sa: seq<nat>, k: nat, a: nat, b: nat)
    requires |t| >= 2 && IsSuffixArray(t, sa) && a < b < |t|
    requires forall x: nat | 0 < x < |t| :: ExactAt(t, sa, k, x)
    requires CommonPrefix(t, sa[a], sa[b]) >= k
    ensures Round(t, sa, k)[a] != Round(t, sa, k)[b] <==> CommonPrefix(t, sa[a], sa[b]) == k
  {
    var w := Source(t, sa, k);
    var m := LcpRange(t, sa, a, b);
    SameInterval(w, a, b);
    forall x: nat | a < x <= b ensures BoundaryAt(w, x) <==> Lcp(t, sa, x) == k {
      IntervalStep(w, x);
      assert ExactAt(t, sa, k, x);
    }
  }

  lemma FirstBoundary(t: Text, sa: seq<nat>, j: nat)
    requires |t| >= 2 && IsPerm(sa, |t|) && 0 < j < |t|
    ensures BoundaryAt(Round(t, sa, 0), j) <==> t[sa[j - 1]] != t[sa[j]]
  {
    FirstRound(t, sa, 0);
    FirstCharAt(t, sa, j - 1);
    FirstCharAt(t, sa, j);
    BoundaryOfItems(FirstChars(t, sa), Round(t, sa, 0), j);
  }

  lemma FirstRound(t: Text, sa: seq<nat>, k: nat)
    requires |t| >= 2 && IsPerm(sa, |t|) && k == 0
    ensures Round(t, sa, k) == Intervals(FirstChars(t, sa))
  {
  }

  lemma FirstCharAt(t: Text, sa: seq<nat>, j: nat)
    requires IsPerm(sa, |t|) && j < |t|
    ensures FirstChars(t, sa)[j] == t[sa[j]]
  {
  }

  lemma BoundaryOfItems(w: seq<nat>, r: seq<nat>, j: nat)
    requires |w| >= 2 && r == Intervals(w) && 0 < j < |w|
    ensures BoundaryAt(r, j) <==> w[j - 1] != w[j]
  {
    IntervalStep(w, j);
  }

  /** A place is a boundary of a later round when the round before tells its two successors apart. */
  lemma NextBoundary(t: Text, sa: seq<nat>, k': nat, k: nat, j: nat)
    requires |t| >= 2 && IsPerm(sa, |t|) && 0 < j < |t| && k == k' + 1
    ensures BoundaryAt(Round(t, sa, k), j)
      <==> Round(t, sa, k')[Psi(t, sa)[j - 1]] != Round(t, sa, k')[Psi(t, sa)[j]]
  {
    RoundUnfolds(t, sa, k', k);
    var before, p := Round(t, sa, k'), Psi(t, sa);
    CarriedAt(p, before, j - 1);
    CarriedAt(p, before, j);
    IntervalStep(Carried(p, before), j);
  }

  lemma RoundUnfolds(t: Text, sa: seq<nat>, k': nat, k: nat)
    requires |t| >= 2 && IsPerm(sa, |t|) && k == k' + 1
    ensures Round(t, sa, k) == Intervals(Carried(Psi(t, sa), Round(t, sa, k')))
  {
    assert k' == k - 1;
  }

  lemma CarriedAt(back: seq<nat>, intervals: seq<nat>, j: nat)
    requires IsPerm(back, |intervals|) && j < |intervals|
    ensures Carried(back, intervals)[j] == intervals[back[j]]
  {
  }

  lemma ExactStep(t: Text, sa: seq<nat>, k': nat, k: nat, j: nat)
    requires |t| >= 2 && UniqueSmallestLast(t) && IsSuffixArray(t, sa) && 0 < j < |t| && k == k' + 1
    requires forall x: nat | 0 < x < |t| :: ExactAt(t, sa, k', x)
    requires Lcp(t, sa, j) >= k
    ensures BoundaryAt(Round(t, sa, k), j) <==> Lcp(t, sa, j) == k
  {
    var a, b := StepInOrder(t, sa, j);
    NextBoundary(t, sa, k', k, j);
    BoundaryInRange(t, sa, k', a, b);
  }

  /** In round `k`, a place whose LCP is at least `k` is a boundary exactly when its LCP is `k`. */
  lemma {:induction false} RoundBoundary(t: Text, sa: seq<nat>, k: nat, j: nat)
    requires |t| >= 2 && UniqueSmallestLast(t) && IsSuffixArray(t, sa) && 0 < j < |t|
    ensures ExactAt(t, sa, k, j)
    decreases k
  {
    if k == 0 {
      FirstBoundary(t, sa, j);
    } else if Lcp(t, sa, j) >= k {
      var k' := k - 1;
      forall x: nat | 0 < x < |t| ensures ExactAt(t, sa, k', x) { RoundBoundary(t, sa, k', x); }
      ExactStep(t, sa, k', k, j);
    }
  }

  /** After `k` rounds the flagged places are those of LCP below `k`, each holding its LCP. */
  ghost predicate Flagged(t: Text, sa: seq<nat>, lcp: seq<IndexFlag>, k: nat)
    requires |sa| == |t|
  {
    |lcp| == |t| && forall j: nat | 0 < j < |t| :: FlaggedAt(t, sa, lcp, k, j)
  }

  ghost predicate FlaggedAt(t: Text, sa: seq<nat>, lcp: seq<IndexFlag>, k: nat, j: nat)
    requires |sa| == |t| == |lcp| && j < |t|
  {
    (lcp[j].flag <==> Lcp(t, sa, j) < k) && (lcp[j].flag ==> lcp[j].index == Lcp(t, sa, j))
  }

  lemma FlagRound(t: Text, sa: seq<nat>, lcp: seq<IndexFlag>, k: nat)
    requires |t| >= 2 && UniqueSmallestLast(t) && IsSuffixArray(t, sa) && Flagged(t, sa, lcp, k)
    ensures var r := FlagChanges(Round(t, sa, k), lcp, k); Flagged(t, sa, r, k + 1) && r[0] == IndexFlag(0, true)
  {
    var r, k' := FlagChanges(Round(t, sa, k), lcp, k), k + 1;
    forall j: nat | 0 < j < |t| ensures FlaggedAt(t, sa, r, k', j) {
      assert FlaggedAt(t, sa, lcp, k, j);
      RoundBoundary(t, sa, k, j);
    }
  }

  /** The loop stops once every place is a boundary. */
  ghost predicate Done(t: Text, sa: seq<nat>, k: nat)
    requires |t| >= 2 && IsPerm(sa, |t|)
  {
    Round(t, sa, k)[|t| - 1] + 1 >= |t|
  }

  lemma DoneIsAllBoundaries(t: Text, sa: seq<nat>, k: nat, j: nat)
    requires |t| >= 2 && IsPerm(sa, |t|) && Done(t, sa, k) && 0 < j < |t|
    ensures BoundaryAt(Round(t, sa, k), j)
  {
    AllBoundaries(Source(t, sa, k), j);
  }

  /** The flags set after the loop complete the LCP array. */
  lemma FinalFlags(t: Text, sa: seq<nat>, lcp: seq<IndexFlag>, k: nat)
    requires |t| >= 2 && UniqueSmallestLast(t) && IsSuffixArray(t, sa) && Flagged(t, sa, lcp, k) && Done(t, sa, k)
    ensures forall j: nat | j < |t| :: FlagChanges(Round(t, sa, k), lcp, k)[j].index == Lcp(t, sa, j)
  {
    var r := FlagChanges(Round(t, sa, k), lcp, k);
    forall j: nat | j < |t| ensures r[j].index == Lcp(t, sa, j) {
      if j > 0 {
        DoneIsAllBoundaries(t, sa, k, j);
        assert FlaggedAt(t, sa, lcp, k, j);
        RoundBoundary(t, sa, k, j);
      }
    }
  }
}
