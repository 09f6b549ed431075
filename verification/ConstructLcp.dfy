/** The LCP construction loop (examples/suffix_sorting/construct_lcp.hpp:79-215). */
module ConstructLcp {
  import opened IntervalNumbers
  import opened Lists
  import opened Suffixes
  import opened BurrowsWheeler
  import opened LongestCommonPrefix
  import opened LcpTermination

  lemma SortedCharAt(t: Text, sa: seq<nat>, j: nat)
    requires |t| >= 2 && UniqueSmallestLast(t) && IsSuffixArray(t, sa) && j < |t|
    ensures CharOf(SortedChars(ConstructBWT(t, sa))[j]) == t[sa[j]]
  {
    var bwt := ConstructBWT(t, sa);
    InverseIsLF(t, sa);
    LFIsPerm(t, sa);
    var r := Inverse(LF(t, sa), |t|)[j];
    LFAt(t, sa, r);
    InverseBWTEntry(bwt, r);
    BWTEntry(t, sa, r);
  }

  /** The sorted transform lists the first character of every suffix, in suffix array order. */
  lemma SortedCharsAreFirst(t: Text, sa: seq<nat>)
    requires |t| >= 2 && UniqueSmallestLast(t) && IsSuffixArray(t, sa)
    ensures Map(CharOf, SortedChars(ConstructBWT(t, sa))) == FirstChars(t, sa)
  {
    forall j: nat | j < |t| ensures CharOf(SortedChars(ConstructBWT(t, sa))[j]) == t[sa[j]] { SortedCharAt(t, sa, j); }
  }

  /** One turn of the loop refines the intervals to those of the next round. */
  lemma RefineIsNextRound(t: Text, sa: seq<nat>, inverse: seq<nat>, k: nat, k': nat)
    requires |t| >= 2 && IsPerm(sa, |t|) && inverse == LF(t, sa) && k' == k + 1
    ensures Refine(inverse, Round(t, sa, k)) == Round(t, sa, k')
  {
    LFIsPerm(t, sa);
    RefineIsCarried(inverse, Psi(t, sa), Round(t, sa, k));
    RoundUnfolds(t, sa, k, k');
  }

  lemma LastIsTop(t: Text, sa: seq<nat>, k: nat)
    requires |t| >= 2 && IsPerm(sa, |t|)
    ensures Max(Round(t, sa, k)) == Top(t, sa, k)
  {
    MaxOfIntervals(Source(t, sa, k));
  }

  lemma {:induction false} DoneStays(t: Text, sa: seq<nat>, k: nat, end: nat)
    requires |t| >= 2 && IsPerm(sa, |t|) && Done(t, sa, k) && k <= end
    ensures Done(t, sa, end)
    decreases end - k
  {
    if k < end {
      IntervalsNeverDecrease(t, sa, k, k + 1);
      DoneStays(t, sa, k + 1, end);
    }
  }

  /** What the loop keeps: the intervals of the round, their highest number, and the flagged places. */
  ghost predicate AtRound(t: Text, sa: seq<nat>, lcp: seq<IndexFlag>, intervals: seq<nat>, top: nat, k: nat)
    requires |t| >= 2 && IsPerm(sa, |t|)
  {
    intervals == Round(t, sa, k) && top == Top(t, sa, k) && Flagged(t, sa, lcp, k)
  }

  lemma StartsAtRoundZero(t: Text, sa: seq<nat>, lcp: seq<IndexFlag>, intervals: seq<nat>)
    requires |t| >= 2 && UniqueSmallestLast(t) && IsSuffixArray(t, sa)
    requires |lcp| == |t| && forall j | 0 <= j < |lcp| :: !lcp[j].flag
    requires intervals == Intervals(Map(CharOf, SortedChars(ConstructBWT(t, sa))))
    ensures AtRound(t, sa, lcp, intervals, Max(intervals), 0)
  {
    SortedCharsAreFirst(t, sa);
    LastIsTop(t, sa, 0);
    forall j: nat | 0 < j < |t| ensures FlaggedAt(t, sa, lcp, 0, j) { }
  }

  lemma NextRound(t: Text, sa: seq<nat>, inverse: seq<nat>, lcp: seq<IndexFlag>, intervals: seq<nat>, top: nat, k: nat)
    requires |t| >= 2 && UniqueSmallestLast(t) && IsSuffixArray(t, sa) && inverse == LF(t, sa)
    requires AtRound(t, sa, lcp, intervals, top, k)
    ensures var next := Refine(inverse, intervals);
            AtRound(t, sa, FlagChanges(intervals, lcp, k), next, Max(next), k + 1)
  {
    FlagRound(t, sa, lcp, k);
    RefineIsNextRound(t, sa, inverse, k, k + 1);
    LastIsTop(t, sa, k + 1);
  }

  lemma LastRound(t: Text, sa: seq<nat>, lcp: seq<IndexFlag>, intervals: seq<nat>, top: nat, k: nat)
    requires |t| >= 2 && UniqueSmallestLast(t) && IsSuffixArray(t, sa)
    requires AtRound(t, sa, lcp, intervals, top, k) && top + 1 >= |t|
    ensures forall j: nat | j < |t| :: Map(LcpIndex, FlagChanges(intervals, lcp, k))[j] == Lcp(t, sa, j)
  {
    FinalFlags(t, sa, lcp, k);
  }

  lemma NotYetDone(t: Text, sa: seq<nat>, lcp: seq<IndexFlag>, intervals: seq<nat>, top: nat, k: nat, end: nat)
    requires |t| >= 2 && IsPerm(sa, |t|) && AtRound(t, sa, lcp, intervals, top, k) && top + 1 < |t| && Done(t, sa, end)
    ensures k < end
  {
    if end <= k { DoneStays(t, sa, end, k); }
  }

  lemma LoopGoesOn(t: Text, sa: seq<nat>, inverse: seq<nat>, lcp: seq<IndexFlag>, intervals: seq<nat>, top: nat,
                   k: nat, end: nat)
    requires |t| >= 2 && UniqueSmallestLast(t) && IsSuffixArray(t, sa) && inverse == LF(t, sa)
    requires AtRound(t, sa, lcp, intervals, top, k) && top + 1 < |t| && Done(t, sa, end)
    ensures |intervals| == |lcp| == |inverse| == |t| && k < end
    ensures var next := Refine(inverse, intervals);
            AtRound(t, sa, FlagChanges(intervals, lcp, k), next, Max(next), k + 1)
  {
    NotYetDone(t, sa, lcp, intervals, top, k, end);
    NextRound(t, sa, inverse, lcp, intervals, top, k);
  }

  lemma LastRoundNumber(t: Text, sa: seq<nat>) returns (end: nat)
    requires |t| >= 2 && UniqueSmallestLast(t) && IsSuffixArray(t, sa) && !Stuck(t, sa)
    ensures Done(t, sa, end)
  {
    LoopEndsUnlessStuck(t, sa);
    end :| Done(t, sa, end);
  }

  /** On a text with a unique smallest last character that is not stuck, the loop ends with the LCP array. */
  method ConstructLCP(n: nat, bwt: seq<nat>, ghost t: Text, ghost sa: seq<nat>) returns (result: seq<nat>)
    requires n == |t| >= 2 && UniqueSmallestLast(t) && IsSuffixArray(t, sa) && bwt == ConstructBWT(t, sa)
    requires !Stuck(t, sa)
    ensures |result| == n && forall j: nat | j < n :: result[j] == Lcp(t, sa, j)
  {
    ghost var end := LastRoundNumber(t, sa);
    InverseIsLF(t, sa);
    var lcp := seq(n, _ => IndexFlag(0, false));
    var intervals: seq<nat> := Intervals(Map(CharOf, SortedChars(bwt)));
    StartsAtRoundZero(t, sa, lcp, intervals);
    result := RefinementLoop(n, InverseBWT(bwt), intervals, lcp, t, sa, end);
  }

  /** The loop and the flags set after it. */
  method RefinementLoop(n: nat, inverse: seq<nat>, intervals0: seq<nat>, lcp0: seq<IndexFlag>,
                        ghost t: Text, ghost sa: seq<nat>, ghost end: nat) returns (result: seq<nat>)
    requires n == |t| >= 2 && UniqueSmallestLast(t) && IsSuffixArray(t, sa) && inverse == LF(t, sa) && Done(t, sa, end)
    requires AtRound(t, sa, lcp0, intervals0, Max(intervals0), 0)
    ensures |result| == n && forall j: nat | j < n :: result[j] == Lcp(t, sa, j)
  {
    var intervals, lcp := intervals0, lcp0;
    var numberIntervals: nat, lcpValue: nat := Max(intervals), 0;
    while numberIntervals + 1 < n
      invariant AtRound(t, sa, lcp, intervals, numberIntervals, lcpValue)
      decreases end - lcpValue
    {
      LoopGoesOn(t, sa, inverse, lcp, intervals, numberIntervals, lcpValue, end);
      lcp := FlagChanges(intervals, lcp, lcpValue);
      intervals := Refine(inverse, intervals);
      numberIntervals := Max(intervals);
      lcpValue := lcpValue + 1;
    }
    LastRound(t, sa, lcp, intervals, numberIntervals, lcpValue);
    lcp := FlagChanges(intervals, lcp, lcpValue);
    result := Map(LcpIndex, lcp);
  }

  /** On the text `bab$` the loop never ends: the two suffixes starting with `b`, and after a round the
      two suffixes before them, stay in one interval for ever. */
  lemma NeverEndsOnBab(t: Text, sa: seq<nat>, k: nat)
    requires t == [98, 97, 98, 36] && sa == [3, 1, 2, 0]
    ensures UniqueSmallestLast(t) && IsSuffixArray(t, sa) && !Done(t, sa, k)
  {
    BabSorted(t, sa);
    BabStuck(t, sa);
    StuckNeverDone(t, sa, 2, 0, k);
  }

  lemma BabSorted(t: Text, sa: seq<nat>)
    requires t == [98, 97, 98, 36] && sa == [3, 1, 2, 0]
    ensures UniqueSmallestLast(t) && IsSuffixArray(t, sa)
  {
    assert SufLess(t, 3, 1) && SufLess(t, 3, 2) && SufLess(t, 3, 0) && SufLess(t, 1, 2) && SufLess(t, 1, 0);
    assert SufLess(t, 2, 0);
  }

  lemma BabStuck(t: Text, sa: seq<nat>)
    requires t == [98, 97, 98, 36] && sa == [3, 1, 2, 0]
    ensures StuckBy(t, sa, 2, 0)
  {
    assert sa[0] % 2 == 1 && sa[1] % 2 == 1 && sa[2] % 2 == 0 && sa[3] % 2 == 0;
  }
}
