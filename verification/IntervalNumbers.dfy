/** Numbering the runs of equal neighbours in a list by a window of two and a prefix sum. */
module IntervalNumbers {
  import opened Lists

  /** One where an item differs from its predecessor; a window of two needs at least two items. */
  function Changes<T(==)>(s: seq<T>): (r: seq<nat>)
  {
    if |s| < 2 then [] else
    seq(|s|, i requires 0 <= i < |s| => if i == 0 || s[i - 1] == s[i] then 0 else 1)
  }

  /** Interval numbers: a new interval starts where an item differs from its predecessor. */
  function Intervals<T(==)>(s: seq<T>): (r: seq<nat>)
    ensures |s| >= 2 ==> |r| == |s|
  {
    PrefixSum(Changes(s))
  }

  ghost predicate BoundaryAt<T>(s: seq<T>, j: nat)
    requires 0 < j < |s|
  {
    s[j - 1] != s[j]
  }

  lemma IntervalStep<T>(s: seq<T>, j: nat)
    requires |s| >= 2 && 0 < j < |s|
    ensures Intervals(s)[j] == Intervals(s)[j - 1] + (if BoundaryAt(s, j) then 1 else 0)
    ensures BoundaryAt(Intervals(s), j) <==> BoundaryAt(s, j)
  {
    PrefixSumAt(Changes(s), j);
  }

  lemma IntervalZero<T>(s: seq<T>)
    requires |s| >= 2
    ensures Intervals(s)[0] == 0
  {
    PrefixSumAt(Changes(s), 0);
  }

  /** Interval numbers ascend, by at most one at every place. */
  lemma {:induction false} IntervalsAscend<T>(s: seq<T>, a: nat, b: nat)
    requires |s| >= 2 && a <= b < |s|
    ensures Intervals(s)[a] <= Intervals(s)[b] <= Intervals(s)[a] + b - a
    decreases b - a
  {
    if a < b {
      IntervalStep(s, b);
      IntervalsAscend(s, a, b - 1);
    }
  }

  /** Two places share an interval exactly when no boundary lies between them. */
  lemma {:induction false} SameInterval<T>(s: seq<T>, a: nat, b: nat)
    requires |s| >= 2 && a <= b < |s|
    ensures Intervals(s)[a] == Intervals(s)[b] <==> forall m: nat | a < m <= b :: !BoundaryAt(s, m)
    decreases b - a
  {
    if a < b {
      IntervalStep(s, b);
      IntervalsAscend(s, a, b - 1);
      SameInterval(s, a, b - 1);
      assert (forall m: nat | a < m <= b :: !BoundaryAt(s, m))
        <==> (forall m: nat | a < m <= b - 1 :: !BoundaryAt(s, m)) && !BoundaryAt(s, b);
    }
  }

  /** As many intervals as places: every place is a boundary. */
  lemma AllBoundaries<T>(s: seq<T>, j: nat)
    requires |s| >= 2 && 0 < j < |s| && Intervals(s)[|s| - 1] + 1 >= |s|
    ensures BoundaryAt(Intervals(s), j)
  {
    IntervalZero(s);
    IntervalsAscend(s, 0, j - 1);
    IntervalStep(s, j);
    IntervalsAscend(s, j, |s| - 1);
  }

  lemma MaxOfIntervals<T>(s: seq<T>)
    requires |s| >= 2
    ensures Max(Intervals(s)) == Intervals(s)[|s| - 1]
  {
    var k := IndexIn(Max(Intervals(s)), Intervals(s));
    IntervalsAscend(s, k, |s| - 1);
  }

  /** A shared interval holds one item. */
  lemma {:induction false} SameIntervalSameItem<T>(w: seq<T>, a: nat, b: nat)
    requires |w| >= 2 && a <= b < |w| && Intervals(w)[a] == Intervals(w)[b]
    ensures w[a] == w[b]
    decreases b - a
  {
    if a < b {
      IntervalsAscend(w, a, b - 1);
      IntervalStep(w, b);
      SameIntervalSameItem(w, a, b - 1);
    }
  }

  lemma {:induction false} EqualRunSameInterval<T>(w: seq<T>, a: nat, b: nat)
    requires |w| >= 2 && a <= b < |w| && forall m: nat | a <= m <= b :: w[m] == w[a]
    ensures Intervals(w)[a] == Intervals(w)[b]
    decreases b - a
  {
    if a < b {
      IntervalStep(w, b);
      EqualRunSameInterval(w, a, b - 1);
    }
  }

  /** Interval numbers leave no gaps. */
  lemma {:induction false} EveryIntervalOccurs<T>(w: seq<T>, c: nat, b: nat) returns (a: nat)
    requires |w| >= 2 && b < |w| && c <= Intervals(w)[b]
    ensures a <= b && Intervals(w)[a] == c
    decreases b
  {
    if Intervals(w)[b] == c {
      a := b;
    } else {
      if b == 0 { IntervalZero(w); }
      IntervalStep(w, b);
      a := EveryIntervalOccurs(w, c, b - 1);
    }
  }
}
