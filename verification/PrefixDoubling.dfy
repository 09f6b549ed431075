/**
 Suffix sorting by prefix doubling (examples/suffix_sorting/prefix_doubling.cpp): the naming of
 sorted groups, the doubling round in its two variants, and the two main loops.

 The state of the loops is `names`, a list of pairs (index, rank) in sorted order.  `Named` is what
 every round keeps: the rank of a suffix is the 1-based place of the first suffix of its class, where
 two suffixes share a class when their first `e` padded characters agree and neither is so short that
 the padding could have been mistaken for text (`slack`), and smaller ranks mean smaller suffixes.
 */
module PrefixDoubling {
  import opened Arithmetic
  import opened Lists
  import opened Suffixes
  import opened Packing

  datatype IndexRankRank = IndexRankRank(index: nat, rank1: nat, rank2: nat)
  datatype CharCharIndex = CharCharIndex(ch0: nat, ch1: nat, index: nat)

  function Indexes(names: seq<IndexRank>): (r: seq<nat>) { Map<IndexRank, nat>(IndexOf, names) }

  // ---------------------------------------------------------------- naming

  /** The naming window over a sorted list: rank 1 first, then 0 for a duplicate of the predecessor
      and the 1-based place otherwise.  A window of two never fires on fewer than two items. */
  function Indicators<T>(s: seq<T>, index: T -> nat, duplicate: (T, T) -> bool): (r: seq<IndexRank>)
  {
    if |s| < 2 then [] else
    seq(|s|, k requires 0 <= k < |s| =>
      IndexRank(index(s[k]), if k == 0 then 1 else if duplicate(s[k - 1], s[k]) then 0 else k + 1))
  }

  function CountZeros(s: seq<IndexRank>): nat
  {
    if s == [] then 0 else CountZeros(s[..|s| - 1]) + (if s[|s| - 1].rank == 0 then 1 else 0)
  }

  /** The scan that replaces the zeros by the name of the group they belong to. */
  function MaxScan(s: seq<IndexRank>): (r: seq<IndexRank>)
    ensures |r| == |s|
    ensures forall k | 0 <= k < |s| :: r[k].index == s[k].index
  {
    if s == [] then []
    else
      var p := MaxScan(s[..|s| - 1]);
      var last := s[|s| - 1];
      p + [IndexRank(last.index, if p != [] && p[|p| - 1].rank > last.rank then p[|p| - 1].rank else last.rank)]
  }

  lemma {:induction false} MaxScanAt(s: seq<IndexRank>, k: nat)
    requires k < |s|
    ensures MaxScan(s)[k].rank ==
            if k > 0 && MaxScan(s)[k - 1].rank > s[k].rank then MaxScan(s)[k - 1].rank else s[k].rank
    decreases |s|
  {
    if k < |s| - 1 { MaxScanAt(s[..|s| - 1], k); }
  }

  // ---------------------------------------------------------------- the invariant

  /** Suffixes `i` and `j` are not told apart by their first `e` characters. */
  ghost predicate SameClass(t: Text, i: nat, j: nat, e: nat, slack: nat) {
    i == j || (Agree(t, i, j, e) && i + e < |t| + slack && j + e < |t| + slack)
  }

  /** The rank at place `k` is a place up to `k` that holds the same rank. */
  ghost predicate RunStart(names: seq<IndexRank>, k: nat)
    requires k < |names|
  {
    1 <= names[k].rank <= k + 1 && names[names[k].rank - 1].rank == names[k].rank
  }

  /** Ranks point at the first member of a run of equal ranks. */
  ghost predicate RunRanks(names: seq<IndexRank>) {
    && (forall k: nat | k < |names| :: RunStart(names, k))
    && (forall a, b | 0 <= a < b < |names| :: names[a].rank <= names[b].rank)
  }

  ghost predicate Named(t: Text, names: seq<IndexRank>, e: nat, slack: nat) {
    && IsPerm(Indexes(names), |t|)
    && RunRanks(names)
    && (forall a, b | 0 <= a < b < |names| ::
          names[a].rank == names[b].rank <==> SameClass(t, names[a].index, names[b].index, e, slack))
    && (forall a, b | 0 <= a < b < |names| && names[a].rank < names[b].rank ::
          SufLess(t, names[a].index, names[b].index))
  }

  /** The places where a new class starts. */
  ghost function Starts(names: seq<IndexRank>): (r: set<nat>)
  {
    set k: nat | k < |names| && names[k].rank == k + 1
  }

  /** How many places take over the class of their predecessor. */
  ghost function Duplicates(names: seq<IndexRank>): (d: nat)
  {
    StartsFit(names);
    |names| - |Starts(names)|
  }

  lemma StartsFit(names: seq<IndexRank>)
    ensures |Starts(names)| <= |names|
  {
    SubsetCard(Starts(names), Below(|names|));
  }

  /** The indicator list `ind` has as many zeros as there are places that start no class. */
  lemma {:induction false} ZerosAreNonStarts(ind: seq<IndexRank>, names: seq<IndexRank>)
    requires |ind| == |names|
    requires forall k | 0 <= k < |ind| :: ind[k].rank != 0 <==> names[k].rank == k + 1
    ensures CountZeros(ind) == Duplicates(names)
    decreases |ind|
  {
    if ind != [] {
      var n := |ind| - 1;
      ZerosAreNonStarts(ind[..n], names[..n]);
      if ind[n].rank != 0 {
        assert Starts(names) == Starts(names[..n]) + {n};
      } else {
        assert Starts(names) == Starts(names[..n]);
      }
    } else {
      assert Starts(names) == {};
    }
  }

  /** Place `k` takes its predecessor's rank when flagged as a duplicate and starts a class otherwise. */
  ghost predicate FlagAt(duplicate: seq<bool>, names: seq<IndexRank>, k: nat)
    requires 0 < k < |names| == |duplicate|
  {
    names[k].rank == if duplicate[k] then names[k - 1].rank else k + 1
  }

  ghost predicate FollowsFlags(duplicate: seq<bool>, names: seq<IndexRank>) {
    && |duplicate| == |names| > 0
    && names[0].rank == 1
    && forall k: nat | 0 < k < |names| :: FlagAt(duplicate, names, k)
  }

  ghost predicate FlagIsClass(t: Text, s: seq<nat>, duplicate: seq<bool>, k: int, e: nat, slack: nat)
    requires 0 < k < |s| == |duplicate|
  {
    duplicate[k] <==> SameClass(t, s[k - 1], s[k], e, slack)
  }

  /** The list `s` of suffixes ascends, and its classes are exactly the runs the flags mark. */
  ghost predicate SortedRuns(t: Text, s: seq<nat>, duplicate: seq<bool>, e: nat, slack: nat) {
    && |s| == |duplicate| == |t|
    && (forall k | 0 < k < |t| :: FlagIsClass(t, s, duplicate, k, e, slack))
    && (forall a, b | 0 <= a < b < |t| :: SameClass(t, s[a], s[b], e, slack) || SufLess(t, s[a], s[b]))
    && (forall a, m, b | 0 <= a < m <= b < |t| && SameClass(t, s[a], s[b], e, slack) :: duplicate[m])
  }

  /** What sorting and naming establish, whatever the sort key was. */
  lemma NamedFromRuns(t: Text, s: seq<nat>, duplicate: seq<bool>, names: seq<IndexRank>, e: nat, slack: nat)
    requires |t| >= 2 && IsPerm(s, |t|) && |names| == |t| && FollowsFlags(duplicate, names)
    requires forall k | 0 <= k < |t| :: names[k].index == s[k]
    requires SortedRuns(t, s, duplicate, e, slack)
    ensures Named(t, names, e, slack)
  {
    var n := |t|;
    assert Indexes(names) == s;
    RunsFromFlags(duplicate, names);
    forall a, b | 0 <= a < b < n
      ensures names[a].rank == names[b].rank <==> SameClass(t, s[a], s[b], e, slack)
    {
      if names[a].rank == names[b].rank {
        EqualRanksAreRuns(duplicate, names, a, b);
        RunIsClass(t, s, duplicate, a, b, e, slack);
      }
      if SameClass(t, s[a], s[b], e, slack) {
        RunsAreEqualRanks(duplicate, names, a, b);
      }
    }
  }

  lemma {:induction false} RunsFromFlags(duplicate: seq<bool>, names: seq<IndexRank>)
    requires FollowsFlags(duplicate, names)
    ensures RunRanks(names)
    decreases |names|
  {
    var n := |names| - 1;
    if n > 0 {
      var d', names' := duplicate[..n], names[..n];
      forall k: nat | 0 < k < n ensures FlagAt(d', names', k) { assert FlagAt(duplicate, names, k); }
      RunsFromFlags(d', names');
      assert FlagAt(duplicate, names, n);
      forall k: nat | k < |names| ensures RunStart(names, k) {
        assert RunStart(names', if k < n then k else n - 1);
      }
      forall a, b | 0 <= a < b < |names| ensures names[a].rank <= names[b].rank {
        assert RunStart(names, a);
        assert b < n ==> names'[a].rank <= names'[b].rank;
        assert a < n - 1 ==> names'[a].rank <= names'[n - 1].rank;
      }
    }
  }

  lemma {:induction false} EqualRanksAreRuns(duplicate: seq<bool>, names: seq<IndexRank>, a: nat, b: nat)
    requires FollowsFlags(duplicate, names) && RunRanks(names)
    requires a <= b < |names| && names[a].rank == names[b].rank
    ensures forall m | a < m <= b :: duplicate[m]
    decreases b - a
  {
    if a < b {
      assert FlagAt(duplicate, names, b);
      assert RunStart(names, b - 1);
      EqualRanksAreRuns(duplicate, names, a, b - 1);
    }
  }

  lemma {:induction false} RunsAreEqualRanks(duplicate: seq<bool>, names: seq<IndexRank>, a: nat, b: nat)
    requires FollowsFlags(duplicate, names)
    requires a <= b < |names| && forall m | a < m <= b :: duplicate[m]
    ensures names[a].rank == names[b].rank
    decreases b - a
  {
    if a < b {
      assert FlagAt(duplicate, names, b);
      RunsAreEqualRanks(duplicate, names, a, b - 1);
    }
  }

  lemma SameClassTransitive(t: Text, i: nat, j: nat, k: nat, e: nat, slack: nat)
    requires SameClass(t, i, j, e, slack) && SameClass(t, j, k, e, slack)
    ensures SameClass(t, i, k, e, slack)
  {
    if i != j && j != k { AgreeTransitive(t, i, j, k, e); }
  }

  lemma {:induction false} RunIsClass(t: Text, s: seq<nat>, duplicate: seq<bool>, a: nat, b: nat, e: nat, slack: nat)
    requires |s| == |duplicate| && a <= b < |s|
    requires forall k | 0 < k < |s| :: FlagIsClass(t, s, duplicate, k, e, slack)
    requires forall m | a < m <= b :: duplicate[m]
    ensures SameClass(t, s[a], s[b], e, slack)
    decreases b - a
  {
    if a < b {
      assert FlagIsClass(t, s, duplicate, b, e, slack);
      RunIsClass(t, s, duplicate, a, b - 1, e, slack);
      SameClassTransitive(t, s[a], s[b - 1], s[b], e, slack);
    }
  }

  /** Without duplicates the list of indexes is the suffix array. */
  lemma NoDuplicatesIsSorted(t: Text, names: seq<IndexRank>, e: nat, slack: nat)
    requires Named(t, names, e, slack)
    requires forall k | 0 <= k < |names| :: names[k].rank == k + 1
    ensures IsSuffixArray(t, Indexes(names))
  {
  }

  lemma {:induction false} ScanBound(ind: seq<IndexRank>, k: nat)
    requires k < |ind| && forall m | 0 <= m < |ind| :: ind[m].rank <= m + 1
    ensures MaxScan(ind)[k].rank <= k + 1
  {
    MaxScanAt(ind, k);
    if k > 0 { ScanBound(ind, k - 1); }
  }

  ghost function Flags<T>(s: seq<T>, duplicate: (T, T) -> bool): (r: seq<bool>)
    ensures |r| == |s|
  {
    seq(|s|, k requires 0 <= k < |s| => k > 0 && duplicate(s[k - 1], s[k]))
  }

  /** Scanning the indicators gives every item the rank its duplicate flag asks for. */
  lemma ScanFollowsFlags<T>(s: seq<T>, index: T -> nat, duplicate: (T, T) -> bool)
    requires |s| >= 2
    ensures var ind := Indicators(s, index, duplicate);
            var names := MaxScan(ind);
            && |names| == |s|
            && FollowsFlags(Flags(s, duplicate), names)
            && (forall k | 0 <= k < |s| :: names[k].index == index(s[k]))
            && (forall k | 0 <= k < |s| :: ind[k].rank != 0 <==> names[k].rank == k + 1)
  {
    var ind := Indicators(s, index, duplicate);
    var names := MaxScan(ind);
    MaxScanAt(ind, 0);
    forall k: nat | 0 < k < |s|
      ensures FlagAt(Flags(s, duplicate), names, k)
      ensures ind[k].rank != 0 <==> names[k].rank == k + 1
    {
      ScanBound(ind, k - 1);
      MaxScanAt(ind, k);
    }
  }

  // ---------------------------------------------------------------- one doubling round

  /** The ranks by text position, as the invariant describes them. */
  ghost predicate RankArray(t: Text, r: seq<nat>, e: nat, slack: nat) {
    && |r| == |t|
    && (forall i | 0 <= i < |t| :: r[i] >= 1)
    && (forall i, j | 0 <= i < |t| && 0 <= j < |t| :: r[i] == r[j] <==> SameClass(t, i, j, e, slack))
    && (forall i, j | 0 <= i < |t| && 0 <= j < |t| && r[i] < r[j] :: SufLess(t, i, j))
  }

  ghost predicate HoldRanks(names: seq<IndexRank>, r: seq<nat>) {
    IsPerm(Indexes(names), |r|) && forall k | 0 <= k < |names| :: names[k].rank == r[names[k].index]
  }

  lemma RanksByPosition(t: Text, names: seq<IndexRank>, e: nat, slack: nat) returns (r: seq<nat>)
    requires Named(t, names, e, slack)
    ensures RankArray(t, r, e, slack) && HoldRanks(names, r)
  {
    var n := |t|;
    var inv := Inverse(Indexes(names), n);
    r := seq(n, i requires 0 <= i < n => names[inv[i]].rank);
    forall i | 0 <= i < n ensures r[i] >= 1 { assert RunStart(names, inv[i]); }
    forall k | 0 <= k < n ensures names[k].rank == r[names[k].index] {
      assert inv[Indexes(names)[k]] == k;
    }
    forall i, j | 0 <= i < n && 0 <= j < n
      ensures r[i] == r[j] <==> SameClass(t, i, j, e, slack)
      ensures r[i] < r[j] ==> SufLess(t, i, j)
    {
      assert Indexes(names)[inv[i]] == i && Indexes(names)[inv[j]] == j;
      if inv[i] > inv[j] && SameClass(t, j, i, e, slack) { ClassSymmetric(t, j, i, e, slack); }
      if inv[i] > inv[j] && SameClass(t, i, j, e, slack) { ClassSymmetric(t, i, j, e, slack); }
    }
  }

  lemma ClassSymmetric(t: Text, i: nat, j: nat, e: nat, slack: nat)
    requires SameClass(t, i, j, e, slack)
    ensures SameClass(t, j, i, e, slack)
  {
    if i != j { AgreeSymmetric(t, i, j, e); }
  }

  /** The rank `shift` places further on, zero past the end of the text. */
  function SecondRank(r: seq<nat>, i: nat, shift: nat): nat {
    if i + shift < |r| then r[i + shift] else 0
  }

  /** Two suffixes get equal nonzero rank pairs exactly when they share a class of the longer prefix. */
  lemma PairsAreClasses(t: Text, r: seq<nat>, e: nat, slack: nat, shift: nat, i: nat, j: nat)
    requires RankArray(t, r, e, slack) && shift <= e && slack <= e && i < |t| && j < |t|
    requires i != j
    ensures r[i] == r[j] && SecondRank(r, i, shift) == SecondRank(r, j, shift) != 0
      <==> SameClass(t, i, j, e + shift, slack)
  {
    AgreeSplit(t, i, j, e, shift);
    AgreeSplit(t, i, j, shift, e);
    AgreeSplit(t, i, j, shift, e - shift);
  }

  /** A smaller rank pair belongs to a smaller suffix. */
  lemma SmallerPairSmaller(t: Text, r: seq<nat>, e: nat, slack: nat, shift: nat, i: nat, j: nat)
    requires RankArray(t, r, e, slack) && 1 <= shift <= e && i < |t| && j < |t|
    requires r[i] == r[j] && SecondRank(r, i, shift) < SecondRank(r, j, shift)
    ensures SufLess(t, i, j)
  {
    AgreeSplit(t, i, j, shift, e - shift);
    if i + shift < |t| {
      SkipEqual(t, i, j, shift);
    } else {
      ShorterIsSmaller(t, i, j, shift);
    }
  }

  /** Suffixes with equal first rank that both end within the shift: the later one is smaller. */
  lemma BothEndSmaller(t: Text, r: seq<nat>, e: nat, slack: nat, shift: nat, i: nat, j: nat)
    requires RankArray(t, r, e, slack) && shift <= e && j < i < |t|
    requires r[i] == r[j] && SecondRank(r, i, shift) == 0
    ensures SufLess(t, i, j)
  {
    AgreeSplit(t, i, j, shift, e - shift);
    ShorterIsSmaller(t, i, j, shift);
  }

  /** When the shift is short enough, two suffixes of one class never both end within it. */
  lemma NotBothEnd(t: Text, r: seq<nat>, e: nat, slack: nat, shift: nat, i: nat, j: nat)
    requires RankArray(t, r, e, slack) && 1 <= shift && shift + slack <= e + 1 && i < |t| && j < |t|
    requires i != j && r[i] == r[j]
    ensures SecondRank(r, i, shift) != 0 || SecondRank(r, j, shift) != 0
  {
  }

  function TripleIndex(x: IndexRankRank): nat { x.index }

  /** IndexRankRank's `<`: by both ranks, and among equal ranks the larger index first. */
  predicate TripleLess(a: IndexRankRank, b: IndexRankRank) {
    a.rank1 < b.rank1 || (a.rank1 == b.rank1 && (a.rank2 < b.rank2 || (a.rank2 == b.rank2 && b.index < a.index)))
  }

  predicate SameTriple(a: IndexRankRank, b: IndexRankRank) { a.rank1 == b.rank1 && a.rank2 == b.rank2 }

  predicate SameInsideTriple(a: IndexRankRank, b: IndexRankRank) { SameTriple(a, b) && a.rank2 != 0 }

  /** The list holds one triple for every text position. */
  ghost predicate AllTriples(s: seq<IndexRankRank>, r: seq<nat>, shift: nat) {
    && IsPerm(Map<IndexRankRank, nat>(TripleIndex, s), |r|)
    && (forall k | 0 <= k < |s| :: s[k].index < |r|)
    && forall k | 0 <= k < |s| :: s[k] == IndexRankRank(s[k].index, r[s[k].index], SecondRank(r, s[k].index, shift))
  }

  lemma TriplesOrdered(s: seq<IndexRankRank>)
    ensures StrictWeakOrderOn(TripleLess, s)
  {
  }

  lemma SortedTriples(s: seq<IndexRankRank>, r: seq<nat>, shift: nat)
    requires AllTriples(s, r, shift)
    ensures var q := Sort(s, TripleLess); AllTriples(q, r, shift) && SortedBy(q, TripleLess)
  {
    var q := Sort(s, TripleLess);
    TriplesOrdered(s);
    MapMultiset(TripleIndex, s, q);
    PermOfMultiset(Map<IndexRankRank, nat>(TripleIndex, s), Map<IndexRankRank, nat>(TripleIndex, q), |r|);
    forall k | 0 <= k < |q|
      ensures q[k].index < |r|
      ensures q[k] == IndexRankRank(q[k].index, r[q[k].index], SecondRank(r, q[k].index, shift))
    {
      SameItems(s, q);
      assert q[k] in q;
      var m := IndexIn(q[k], s);
    }
  }

  /** The duplicate test used in a round: the sorting variant also asks for a nonzero second rank. */
  ghost predicate RoundTest(duplicate: (IndexRankRank, IndexRankRank) -> bool, e: nat, slack: nat, shift: nat) {
    || duplicate == SameInsideTriple
    || (duplicate == SameTriple && shift + slack <= e + 1)
  }

  lemma TestIsClass(t: Text, r: seq<nat>, e: nat, slack: nat, shift: nat, s: seq<IndexRankRank>,
                    duplicate: (IndexRankRank, IndexRankRank) -> bool, a: nat, b: nat, e': nat)
    requires RankArray(t, r, e, slack) && 1 <= shift <= e && slack <= e && e' == e + shift
    requires AllTriples(s, r, shift) && RoundTest(duplicate, e, slack, shift) && a < b < |s|
    ensures duplicate(s[a], s[b]) <==> SameClass(t, s[a].index, s[b].index, e', slack)
  {
    assert Map<IndexRankRank, nat>(TripleIndex, s)[a] != Map<IndexRankRank, nat>(TripleIndex, s)[b];
    PairsAreClasses(t, r, e, slack, shift, s[a].index, s[b].index);
    if r[s[a].index] == r[s[b].index] && duplicate == SameTriple && shift + slack <= e + 1 {
      NotBothEnd(t, r, e, slack, shift, s[a].index, s[b].index);
    }
  }

  lemma SortedTriplesAscend(t: Text, r: seq<nat>, e: nat, slack: nat, shift: nat, s: seq<IndexRankRank>,
                             a: nat, b: nat, e': nat)
    requires RankArray(t, r, e, slack) && 1 <= shift <= e && slack <= e && e' == e + shift
    requires AllTriples(s, r, shift) && SortedBy(s, TripleLess) && a < b < |s|
    ensures SameClass(t, s[a].index, s[b].index, e', slack) || SufLess(t, s[a].index, s[b].index)
  {
    var i, j := s[a].index, s[b].index;
    assert Map<IndexRankRank, nat>(TripleIndex, s)[a] != Map<IndexRankRank, nat>(TripleIndex, s)[b];
    PairsAreClasses(t, r, e, slack, shift, i, j);
    if r[i] == r[j] {
      if s[a].rank2 < s[b].rank2 {
        SmallerPairSmaller(t, r, e, slack, shift, i, j);
      } else if s[a].rank2 == 0 {
        BothEndSmaller(t, r, e, slack, shift, i, j);
      }
    }
  }

  lemma EqualTriplesAreAdjacent(t: Text, r: seq<nat>, e: nat, slack: nat, shift: nat, s: seq<IndexRankRank>,
                                duplicate: (IndexRankRank, IndexRankRank) -> bool, a: nat, m: nat, b: nat, e': nat)
    requires RankArray(t, r, e, slack) && 1 <= shift <= e && slack <= e && e' == e + shift
    requires AllTriples(s, r, shift) && SortedBy(s, TripleLess) && RoundTest(duplicate, e, slack, shift)
    requires a < m <= b < |s| && SameClass(t, s[a].index, s[b].index, e', slack)
    ensures duplicate(s[m - 1], s[m])
  {
    TestIsClass(t, r, e, slack, shift, s, duplicate, a, b, e');
    assert SameTriple(s[a], s[b]);
    assert a < m - 1 ==> !TripleLess(s[m - 1], s[a]);
    assert m < b ==> !TripleLess(s[b], s[m]);
    assert !TripleLess(s[m], s[m - 1]);
  }

  /** The sorted triples meet what `NamedFromRuns` asks of a sorted list. */
  lemma TriplesFormRuns(t: Text, r: seq<nat>, e: nat, slack: nat, shift: nat, s: seq<IndexRankRank>,
                        duplicate: (IndexRankRank, IndexRankRank) -> bool, idx: seq<nat>, flags: seq<bool>, e': nat)
    requires RankArray(t, r, e, slack) && 1 <= shift <= e && slack <= e && e' == e + shift
    requires AllTriples(s, r, shift) && SortedBy(s, TripleLess) && RoundTest(duplicate, e, slack, shift)
    requires idx == Map<IndexRankRank, nat>(TripleIndex, s) && flags == Flags(s, duplicate)
    ensures SortedRuns(t, idx, flags, e', slack)
  {
    forall k | 0 < k < |t| ensures FlagIsClass(t, idx, flags, k, e', slack) {
      TestIsClass(t, r, e, slack, shift, s, duplicate, k - 1, k, e');
    }
    forall a, b | 0 <= a < b < |t| ensures SameClass(t, idx[a], idx[b], e', slack) || SufLess(t, idx[a], idx[b]) {
      SortedTriplesAscend(t, r, e, slack, shift, s, a, b, e');
    }
    forall a, m, b | 0 <= a < m <= b < |t| && SameClass(t, idx[a], idx[b], e', slack) ensures flags[m] {
      FlagBetween(t, r, e, slack, shift, s, duplicate, idx, flags, a, m, b, e');
    }
  }

  lemma FlagBetween(t: Text, r: seq<nat>, e: nat, slack: nat, shift: nat, s: seq<IndexRankRank>,
                    duplicate: (IndexRankRank, IndexRankRank) -> bool, idx: seq<nat>, flags: seq<bool>,
                    a: nat, m: nat, b: nat, e': nat)
    requires RankArray(t, r, e, slack) && 1 <= shift <= e && slack <= e && e' == e + shift
    requires AllTriples(s, r, shift) && SortedBy(s, TripleLess) && RoundTest(duplicate, e, slack, shift)
    requires idx == Map<IndexRankRank, nat>(TripleIndex, s) && flags == Flags(s, duplicate)
    requires a < m <= b < |t| && SameClass(t, idx[a], idx[b], e', slack)
    ensures flags[m]
  {
    assert idx[a] == s[a].index && idx[b] == s[b].index;
    EqualTriplesAreAdjacent(t, r, e, slack, shift, s, duplicate, a, m, b, e');
  }

  /** Naming a sorted list whose runs are the classes gives the invariant. */
  lemma NamingRuns<T>(t: Text, s: seq<T>, index: T -> nat, duplicate: (T, T) -> bool,
                      ind: seq<IndexRank>, e: nat, slack: nat)
    requires |t| >= 2 && IsPerm(Map<T, nat>(index, s), |t|)
    requires SortedRuns(t, Map<T, nat>(index, s), Flags(s, duplicate), e, slack)
    requires ind == Indicators(s, index, duplicate)
    ensures Named(t, MaxScan(ind), e, slack)
    ensures CountZeros(ind) == Duplicates(MaxScan(ind))
  {
    ScanFollowsFlags(s, index, duplicate);
    ZerosAreNonStarts(ind, MaxScan(ind));
    NamedFromRuns(t, Map<T, nat>(index, s), Flags(s, duplicate), MaxScan(ind), e, slack);
  }

  /** One round: sorting and naming the rank pairs at distance `shift` names the longer prefixes. */
  lemma RoundKeepsNamed(t: Text, r: seq<nat>, e: nat, slack: nat, shift: nat, s: seq<IndexRankRank>,
                        duplicate: (IndexRankRank, IndexRankRank) -> bool, ind: seq<IndexRank>, e': nat)
    requires |t| >= 2 && RankArray(t, r, e, slack) && 1 <= shift <= e && slack <= e && e' == e + shift
    requires AllTriples(s, r, shift) && SortedBy(s, TripleLess) && RoundTest(duplicate, e, slack, shift)
    requires ind == Indicators(s, TripleIndex, duplicate)
    ensures Named(t, MaxScan(ind), e', slack)
    ensures CountZeros(ind) == Duplicates(MaxScan(ind))
  {
    TriplesFormRuns(t, r, e, slack, shift, s, duplicate, Map<IndexRankRank, nat>(TripleIndex, s), Flags(s, duplicate),
                    e');
    NamingRuns(t, s, TripleIndex, duplicate, ind, e', slack);
  }

  // ---------------------------------------------------------------- duplicates never increase

  /** Where the class of suffix `i` starts. */
  lemma ClassStart(names: seq<IndexRank>, r: seq<nat>, i: nat) returns (k: nat)
    requires RunRanks(names) && HoldRanks(names, r) && i < |r|
    ensures k < |names| && names[k].rank == k + 1 == r[i]
    ensures names[k].index < |r| && r[names[k].index] == r[i]
  {
    var p := Inverse(Indexes(names), |r|)[i];
    assert Indexes(names)[p] == i;
    assert RunStart(names, p);
    k := names[p].rank - 1;
    assert Indexes(names)[k] < |r|;
  }

  lemma FinerClass(t: Text, r: seq<nat>, r': seq<nat>, e: nat, e': nat, slack: nat, i: nat, j: nat)
    requires e <= e' && RankArray(t, r, e, slack) && RankArray(t, r', e', slack) && i < |t| && j < |t|
    requires r'[i] == r'[j]
    ensures r[i] == r[j]
  {
    assert SameClass(t, i, j, e', slack);
    AgreeSplit(t, i, j, e, e' - e);
    assert SameClass(t, i, j, e, slack);
  }

  /** Every old class start is found from the start of a new class inside it. */
  lemma ClassesRefine(t: Text, old': seq<IndexRank>, new': seq<IndexRank>, e: nat, e': nat, slack: nat)
    requires e <= e' && Named(t, old', e, slack) && Named(t, new', e', slack)
    ensures Duplicates(new') <= Duplicates(old')
  {
    var r := RanksByPosition(t, old', e, slack);
    var r' := RanksByPosition(t, new', e', slack);
    var f := (k: nat) => if k < |new'| && new'[k].index < |r| then r[new'[k].index] - 1 else 0;
    var image := set k | k in Starts(new') :: f(k);
    forall k | k in Starts(old') ensures k in image {
      var i := old'[k].index;
      assert Indexes(old')[k] == i;
      var k' := ClassStart(new', r', i);
      FinerClass(t, r, r', e, e', slack, new'[k'].index, i);
      assert k' in Starts(new') && f(k') == k;
    }
    ImageCard(Starts(new'), f, image);
    SubsetCard(Starts(old'), image);
  }

  // ---------------------------------------------------------------- the first names

  /** The key's order is that of the suffixes, and its ties are the classes. */
  ghost predicate KeyIsClass<T>(t: Text, s: seq<T>, index: T -> nat, less: (T, T) -> bool, same: (T, T) -> bool,
                                e: nat, slack: nat) {
    && (forall x, y | x in s && y in s :: same(x, y) <==> !less(x, y) && !less(y, x))
    && (forall x, y | x in s && y in s :: same(x, y) <==> SameClass(t, index(x), index(y), e, slack))
    && (forall x, y | x in s && y in s && less(x, y) :: SufLess(t, index(x), index(y)))
  }

  /** A list sorted by such a key has the classes as its runs. */
  lemma KeyRuns<T>(t: Text, s: seq<T>, index: T -> nat, less: (T, T) -> bool, same: (T, T) -> bool, e: nat, slack: nat)
    requires |s| == |t| && StrictWeakOrderOn(less, s) && SortedBy(s, less)
    requires KeyIsClass(t, s, index, less, same, e, slack)
    ensures SortedRuns(t, Map<T, nat>(index, s), Flags(s, same), e, slack)
  {
    var idx, flags := Map<T, nat>(index, s), Flags(s, same);
    forall k | 0 < k < |t| ensures FlagIsClass(t, idx, flags, k, e, slack) {
      KeyFlag(t, s, index, less, same, e, slack, k);
    }
    forall a, b | 0 <= a < b < |t| ensures SameClass(t, idx[a], idx[b], e, slack) || SufLess(t, idx[a], idx[b]) {
      KeyAscends(t, s, index, less, same, e, slack, a, b);
    }
    forall a, m, b | 0 <= a < m <= b < |t| && SameClass(t, idx[a], idx[b], e, slack) ensures flags[m] {
      KeyConvex(t, s, index, less, same, e, slack, a, m, b);
    }
  }

  lemma KeyFlag<T>(t: Text, s: seq<T>, index: T -> nat, less: (T, T) -> bool, same: (T, T) -> bool, e: nat,
                   slack: nat, k: nat)
    requires |s| == |t| && KeyIsClass(t, s, index, less, same, e, slack) && 0 < k < |t|
    ensures FlagIsClass(t, Map<T, nat>(index, s), Flags(s, same), k, e, slack)
  {
    assert s[k - 1] in s && s[k] in s;
  }

  lemma KeyAscends<T>(t: Text, s: seq<T>, index: T -> nat, less: (T, T) -> bool, same: (T, T) -> bool, e: nat,
                      slack: nat, a: nat, b: nat)
    requires KeyIsClass(t, s, index, less, same, e, slack) && SortedBy(s, less) && a < b < |s|
    ensures SameClass(t, index(s[a]), index(s[b]), e, slack) || SufLess(t, index(s[a]), index(s[b]))
  {
    assert s[a] in s && s[b] in s && !less(s[b], s[a]);
  }

  lemma KeyConvex<T>(t: Text, s: seq<T>, index: T -> nat, less: (T, T) -> bool, same: (T, T) -> bool, e: nat,
                     slack: nat, a: nat, m: nat, b: nat)
    requires StrictWeakOrderOn(less, s) && SortedBy(s, less) && KeyIsClass(t, s, index, less, same, e, slack)
    requires a < m <= b < |s| && SameClass(t, index(s[a]), index(s[b]), e, slack)
    ensures Flags(s, same)[m]
  {
    assert s[a] in s && s[b] in s && same(s[a], s[b]);
    TiesAreAdjacent(s, less, a, m, b);
    assert s[m - 1] in s && s[m] in s;
  }

  lemma TiesAreAdjacent<T>(s: seq<T>, less: (T, T) -> bool, a: nat, m: nat, b: nat)
    requires StrictWeakOrderOn(less, s) && SortedBy(s, less) && a < m <= b < |s|
    ensures !less(s[a], s[b]) ==> !less(s[m - 1], s[m]) && !less(s[m], s[m - 1])
  {
    assert s[a] in s && s[b] in s && s[m] in s && s[m - 1] in s;
    assert !less(s[m], s[m - 1]);
    if less(s[m - 1], s[m]) {
      assert less(s[m - 1], s[b]) by { if m < b { assert !less(s[b], s[m]); } }
      assert less(s[a], s[b]) by { if a < m - 1 { assert !less(s[m - 1], s[a]); } }
    }
  }

  function PairIndex(x: CharCharIndex): nat { x.index }

  predicate PairLess(a: CharCharIndex, b: CharCharIndex) { a.ch0 < b.ch0 || (a.ch0 == b.ch0 && a.ch1 < b.ch1) }

  predicate SamePair(a: CharCharIndex, b: CharCharIndex) { a.ch0 == b.ch0 && a.ch1 == b.ch1 }

  /** Every position with its character and the next one, padded at the last position. */
  function CharPairs(t: Text): (r: seq<CharCharIndex>)
    ensures |r| == |t|
  {
    seq(|t|, i requires 0 <= i < |t| => CharCharIndex(t[i], At(t, i + 1), i))
  }

  ghost function Positions(n: nat): (r: seq<nat>)
    ensures IsPerm(r, n) && forall k | 0 <= k < n :: r[k] == k
  {
    seq(n, k requires 0 <= k < n => k)
  }

  lemma PairsFormRuns(t: Text, s: seq<CharCharIndex>)
    requires s == Sort(CharPairs(t), PairLess)
    ensures IsPerm(Map<CharCharIndex, nat>(PairIndex, s), |t|)
    ensures SortedRuns(t, Map<CharCharIndex, nat>(PairIndex, s), Flags(s, SamePair), 2, 2)
  {
    var pairs := CharPairs(t);
    MapMultiset<CharCharIndex, nat>(PairIndex, pairs, s);
    assert Map<CharCharIndex, nat>(PairIndex, pairs) == Positions(|t|);
    PermOfMultiset(Positions(|t|), Map<CharCharIndex, nat>(PairIndex, s), |t|);
    SameItems(pairs, s);
    PairsOrdered(pairs);
    PairsOrdered(s);
    forall x, y | x in s && y in s
      ensures SamePair(x, y) <==> SameClass(t, x.index, y.index, 2, 2)
      ensures PairLess(x, y) ==> SufLess(t, x.index, y.index)
    {
      assert x in pairs && y in pairs;
      PairMeaning(t, x, y);
    }
    KeyRuns(t, s, PairIndex, PairLess, SamePair, 2, 2);
  }

  lemma PairsOrdered(s: seq<CharCharIndex>)
    ensures StrictWeakOrderOn(PairLess, s)
  {
  }

  lemma PairMeaning(t: Text, x: CharCharIndex, y: CharCharIndex)
    requires x in CharPairs(t) && y in CharPairs(t)
    ensures SamePair(x, y) <==> SameClass(t, x.index, y.index, 2, 2)
    ensures PairLess(x, y) ==> SufLess(t, x.index, y.index)
  {
    var i, j := x.index, y.index;
    assert Agree(t, i + 2, j + 2, 0);
    assert Agree(t, i + 1, j + 1, 1) <==> At(t, i + 1) == At(t, j + 1);
    assert Agree(t, i, j, 1) <==> t[i] == t[j];
    if x.ch0 < y.ch0 { FirstDifference(t, i, j, 0); }
    if x.ch0 == y.ch0 && x.ch1 < y.ch1 { FirstDifference(t, i, j, 1); }
  }

  predicate RankLess(a: IndexRank, b: IndexRank) { a.rank < b.rank }

  predicate SameRank(a: IndexRank, b: IndexRank) { a.rank == b.rank }

  lemma PackedPairOrder(t: Text, alpha: seq<nat>, codes: Text, bits: nat, k: nat, w: seq<IndexRank>, x: IndexRank,
                        y: IndexRank)
    requires Renamed(t, alpha, codes) && Codes(codes, bits) && |w| == |t| && HoldsWindows(w, codes, bits, k)
          && x in w && y in w
    ensures SameRank(x, y) <==> SameClass(t, x.index, y.index, k, 1)
    ensures RankLess(x, y) ==> SufLess(t, x.index, y.index)
  {
    PackedWindowOrder(codes, x.index, y.index, k, bits);
    RenamedOrder(t, alpha, codes, x.index, y.index);
    if x.index == y.index { AgreeSelf(codes, x.index, k); }
    else { RenamedAgree(t, alpha, codes, x.index, y.index, k); }
  }

  lemma RanksOrdered(s: seq<IndexRank>)
    ensures StrictWeakOrderOn(RankLess, s)
  {
  }

  lemma PackedFormRuns(t: Text, alpha: seq<nat>, codes: Text, bits: nat, k: nat, w: seq<IndexRank>, s: seq<IndexRank>)
    requires Renamed(t, alpha, codes) && Codes(codes, bits) && |w| == |t| && HoldsWindows(w, codes, bits, k)
    requires s == Sort(w, RankLess)
    ensures IsPerm(Indexes(s), |t|)
    ensures SortedRuns(t, Indexes(s), Flags(s, SameRank), k, 1)
  {
    MapMultiset<IndexRank, nat>(IndexOf, w, s);
    assert Indexes(w) == Positions(|t|);
    PermOfMultiset(Positions(|t|), Indexes(s), |t|);
    SameItems(w, s);
    RanksOrdered(w);
    RanksOrdered(s);
    forall x, y | x in s && y in s
      ensures SameRank(x, y) <==> SameClass(t, x.index, y.index, k, 1)
      ensures RankLess(x, y) ==> SufLess(t, x.index, y.index)
    {
      PackedPairOrder(t, alpha, codes, bits, k, w, x, y);
    }
    KeyRuns(t, s, IndexOf, RankLess, SameRank, k, 1);
  }

  /** The number of characters the first names tell apart. */
  ghost function GroupSize(t: Text, packed: bool, indexBits: nat): nat
    requires packed ==> |t| > 0
  {
    if packed then KFitting(t, indexBits) else 2
  }

  ghost predicate Packable(t: Text, packed: bool, indexBits: nat) {
    packed ==> |t| > 0 && indexBits >= 32 && forall k | 0 <= k < |t| :: t[k] < 256
  }

  /** The packed branch: as many characters as fit into an index are packed for every position and sorted. */
  method PackCharacters(t: Text, indexBits: nat) returns (charsSorted: seq<IndexRank>, kFitting: nat, iteration: nat)
    requires Packable(t, true, indexBits)
    ensures kFitting == KFitting(t, indexBits) >= 3 && iteration == Log2Floor(kFitting) >= 1
         && Pow2(iteration) <= kFitting
    ensures FitsIndex(charsSorted, indexBits)
    ensures |t| < kFitting ==> charsSorted == []
    ensures |t| >= kFitting ==> SortedRuns(t, Indexes(charsSorted), Flags(charsSorted, SameRank), kFitting, 1)
    ensures |t| >= kFitting ==> IsPerm(Indexes(charsSorted), |t|)
  {
    var alphaMap, alphabetSize := BuildAlphabet(t);
    FittingIsExact(t, indexBits);
    AlphabetHasTwo(t);
    var inputBitSize := Log2Ceil(alphabetSize);
    AtLeastThreeFit(alphabetSize, indexBits);
    kFitting := indexBits / inputBitSize;
    iteration := Log2Floor(kFitting);
    forall c | c in t ensures c < 256 { var k := IndexIn(c, t); }
    var codes := seq(|t|, i requires 0 <= i < |t| reads alphaMap => alphaMap[if t[i] < 256 then t[i] else 0]);
    assert Renamed(t, alphaMap[..], codes);
    var windows := PackWindows(codes, inputBitSize, kFitting, indexBits);
    charsSorted := Sort(windows, RankLess);
    SameItems(windows, charsSorted);
    if |t| >= kFitting { PackedFormRuns(t, alphaMap[..], codes, inputBitSize, kFitting, windows, charsSorted); }
  }

  method PrefixDoublingPack(t: Text, packed: bool, indexBits: nat)
    returns (ind: seq<IndexRank>, iteration: nat, ghost e: nat, ghost slack: nat)
    requires Packable(t, packed, indexBits)
    ensures e == GroupSize(t, packed, indexBits) >= 2 && slack == (if packed then 1 else 2)
    ensures iteration == Log2Floor(e) >= 1 && Pow2(iteration) <= e
    ensures |t| < e ==> ind == []
    ensures |t| >= e ==> Named(t, MaxScan(ind), e, slack) && CountZeros(ind) == Duplicates(MaxScan(ind))
  {
    if packed {
      var charsSorted, kFitting;
      charsSorted, kFitting, iteration := PackCharacters(t, indexBits);
      e, slack := kFitting, 1;
      ind := Indicators(charsSorted, IndexOf, SameRank);
      if |t| >= kFitting { NamingRuns(t, charsSorted, IndexOf, SameRank, ind, e, slack); }
    } else {
      iteration := 1;
      e, slack := 2, 2;
      var charsSorted := Sort(CharPairs(t), PairLess);
      ind := Indicators(charsSorted, PairIndex, SamePair);
      if |t| >= 2 {
        PairsFormRuns(t, charsSorted);
        NamingRuns(t, charsSorted, PairIndex, SamePair, ind, e, slack);
      }
    }
  }

  lemma AtLeastThreeFit(alphabetSize: nat, indexBits: nat)
    requires 2 <= alphabetSize <= 257 && indexBits >= 32
    ensures Log2Ceil(alphabetSize) >= 1 && indexBits / Log2Ceil(alphabetSize) >= 3
    ensures Log2Floor(indexBits / Log2Ceil(alphabetSize)) >= 1
  {
    var f := Log2Floor(alphabetSize - 1);
    assert Pow2(f) <= 256;
    assert Pow2(8) == 256 by { assert Pow2(4) == 16; assert Pow2(6) == 64; }
    if f > 8 { Pow2Monotone(8, f); }
    var b := Log2Ceil(alphabetSize);
    assert b <= 9;
    assert 3 * b <= indexBits;
    QuotientAtLeast(indexBits, b, 3);
  }

  // ---------------------------------------------------------------- the main loops

  /** Order names by residue modulo `shift`, then by index: `i` and `i + shift` become neighbours. */
  function ResidueLess(shift: nat): (IndexRank, IndexRank) -> bool
    requires shift > 0
  {
    (a: IndexRank, b: IndexRank) =>
      if a.index % shift == b.index % shift then a.index - a.index % shift < b.index - b.index % shift
      else a.index % shift < b.index % shift
  }

  /** The window over neighbours: the second rank is the neighbour's, or zero at a boundary. */
  function NeighbourTriples(s: seq<IndexRank>, shift: nat): (r: seq<IndexRankRank>)
    ensures |r| == |s|
  {
    seq(|s|, k requires 0 <= k < |s| =>
      IndexRankRank(s[k].index, s[k].rank,
                    if k + 1 < |s| && s[k].index + shift == s[k + 1].index then s[k + 1].rank else 0))
  }

  lemma ResidueOrdered(s: seq<IndexRank>, shift: nat)
    requires shift > 0
    ensures StrictWeakOrderOn(ResidueLess(shift), s)
  {
  }

  lemma PermutedNames(s: seq<IndexRank>, q: seq<IndexRank>, r: seq<nat>)
    requires multiset(s) == multiset(q) && HoldRanks(s, r)
    ensures HoldRanks(q, r)
  {
    MapMultiset<IndexRank, nat>(IndexOf, s, q);
    PermOfMultiset(Indexes(s), Indexes(q), |r|);
    forall k | 0 <= k < |q| ensures q[k].index < |r| && q[k].rank == r[q[k].index] {
      SameItems(s, q);
      assert q[k] in q;
      var m := IndexIn(q[k], s);
    }
  }

  /** Sorting by residues does put every position next to the one `shift` further on. */
  lemma NeighbourIsShifted(q: seq<IndexRank>, r: seq<nat>, shift: nat, k: nat)
    requires shift > 0 && HoldRanks(q, r) && SortedBy(q, ResidueLess(shift)) && k < |q|
    requires q[k].index + shift < |r|
    ensures k + 1 < |q| && q[k + 1].index == q[k].index + shift
  {
    var i := q[k].index;
    var less := ResidueLess(shift);
    var m := Inverse(Indexes(q), |r|)[i + shift];
    assert Indexes(q)[m] == i + shift;
    AddDivisor(i, shift);
    assert less(q[k], q[m]);
    assert k < m;
    var x := q[k + 1].index;
    assert Indexes(q)[k + 1] != Indexes(q)[k];
    assert !less(q[k + 1], q[k]);
    if k + 1 < m {
      assert !less(q[m], q[k + 1]);
      assert Indexes(q)[k + 1] != Indexes(q)[m];
      SameRemainderGap(i, x, shift);
    }
  }

  lemma NeighboursAreTriples(q: seq<IndexRank>, r: seq<nat>, shift: nat)
    requires shift > 0 && HoldRanks(q, r) && SortedBy(q, ResidueLess(shift))
    ensures AllTriples(NeighbourTriples(q, shift), r, shift)
  {
    var tr := NeighbourTriples(q, shift);
    assert Map<IndexRankRank, nat>(TripleIndex, tr) == Indexes(q);
    forall k | 0 <= k < |tr|
      ensures tr[k] == IndexRankRank(tr[k].index, r[tr[k].index], SecondRank(r, tr[k].index, shift)) {
      if q[k].index + shift < |r| { NeighbourIsShifted(q, r, shift, k); }
    }
  }

  /** While duplicates remain, the named prefixes are no longer than the text. */
  lemma DuplicatesBoundPrefix(t: Text, names: seq<IndexRank>, e: nat, slack: nat)
    requires Named(t, names, e, slack) && Duplicates(names) > 0 && slack <= 2
    ensures e <= |t|
  {
    var k := SomeDuplicate(names);
    assert RunStart(names, k);
    var m := names[k].rank - 1;
    assert Indexes(names)[m] != Indexes(names)[k];
    assert SameClass(t, names[m].index, names[k].index, e, slack);
  }

  lemma SomeDuplicate(names: seq<IndexRank>) returns (k: nat)
    requires Duplicates(names) > 0
    ensures k < |names| && names[k].rank != k + 1
  {
    if Below(|names|) <= Starts(names) { SubsetCard(Below(|names|), Starts(names)); }
    k :| k in Below(|names|) && k !in Starts(names);
  }

  lemma AllStarts(names: seq<IndexRank>)
    requires Duplicates(names) == 0
    ensures forall k | 0 <= k < |names| :: names[k].rank == k + 1
  {
    SubsetCard(Starts(names), Below(|names|));
    forall k: nat | k < |names| ensures names[k].rank == k + 1 { assert k in Starts(names); }
  }

  /** The iteration counter ran from `start` to `end`; the last round's shift, 2^(end-1) or half of
      that for the variant that lags behind, was no longer than the text. */
  ghost predicate RoundsBounded(start: nat, end: nat, lag: nat, n: nat) {
    start <= end && (start < end ==> end > lag && Pow2(end - 1 - lag) <= n)
  }

  /** One round of the sorting variant: sort by residues, pair neighbours, sort the pairs, name them. */
  method SortingRound(t: Text, names: seq<IndexRank>, nextIndex: nat, ghost e: nat, ghost slack: nat)
    returns (newNames: seq<IndexRank>, numberDuplicates: nat, ghost e': nat)
    requires |t| >= 2 && Named(t, names, e, slack) && 1 <= nextIndex <= e && slack <= e
    ensures e' == e + nextIndex && Named(t, newNames, e', slack)
    ensures numberDuplicates == Duplicates(newNames) <= Duplicates(names)
  {
    ghost var r := RanksByPosition(t, names, e, slack);
    var namesSorted := Sort(names, ResidueLess(nextIndex));
    ResidueOrdered(names, nextIndex);
    PermutedNames(names, namesSorted, r);
    var triple := NeighbourTriples(namesSorted, nextIndex);
    NeighboursAreTriples(namesSorted, r, nextIndex);
    var tripleSorted := Sort(triple, TripleLess);
    SortedTriples(triple, r, nextIndex);
    var ind := Indicators(tripleSorted, TripleIndex, SameInsideTriple);
    e' := e + nextIndex;
    RoundKeepsNamed(t, r, e, slack, nextIndex, tripleSorted, SameInsideTriple, ind, e');
    numberDuplicates := CountZeros(ind);
    newNames := MaxScan(ind);
    ClassesRefine(t, names, newNames, e, e', slack);
  }

  /** Without zeros among the indicators the names list the suffix array. */
  lemma Finished(t: Text, names: seq<IndexRank>, e: nat, slack: nat)
    requires Named(t, names, e, slack) && Duplicates(names) == 0
    ensures IsSuffixArray(t, Indexes(names))
  {
    AllStarts(names);
    NoDuplicatesIsSorted(t, names, e, slack);
  }

  /** The names both loops start from: the indicators counted and scanned. */
  method FirstNames(t: Text, packed: bool, indexBits: nat)
    returns (names: seq<IndexRank>, numberDuplicates: nat, iteration: nat, ghost e: nat, ghost slack: nat)
    requires Packable(t, packed, indexBits)
    ensures e == GroupSize(t, packed, indexBits) >= 2 && slack == (if packed then 1 else 2)
    ensures iteration == Log2Floor(e) >= 1
    ensures |t| < e ==> names == [] && numberDuplicates == 0
    ensures |t| >= e ==> Named(t, names, e, slack) && numberDuplicates == Duplicates(names)
  {
    var ind;
    ind, iteration, e, slack := PrefixDoublingPack(t, packed, indexBits);
    numberDuplicates := CountZeros(ind);
    names := MaxScan(ind);
  }

  /** Suffix array construction by prefix doubling with sorting.  The result is the suffix array
      unless the text is shorter than the first group of characters, where it is empty. */
  method PrefixDoublingSorting(t: Text, packed: bool, indexBits: nat) returns (sa: seq<nat>, ghost end: nat)
    requires Packable(t, packed, indexBits)
    ensures |t| >= GroupSize(t, packed, indexBits) ==> IsSuffixArray(t, sa)
    ensures |t| < GroupSize(t, packed, indexBits) ==> sa == []
    ensures RoundsBounded(Log2Floor(GroupSize(t, packed, indexBits)), end, 0, |t|)
  {
    var names, numberDuplicates, iteration;
    ghost var e, slack;
    names, numberDuplicates, iteration, e, slack := FirstNames(t, packed, indexBits);
    end := iteration;
    if numberDuplicates == 0 {
      if |t| >= e { Finished(t, names, e, slack); }
      sa := Indexes(names);
      return;
    }
    DuplicatesBoundPrefix(t, names, e, slack);
    sa, end := SortingRounds(t, names, numberDuplicates, iteration, e, slack);
  }

  /** The loop of the sorting variant. */
  method SortingRounds(t: Text, names0: seq<IndexRank>, lastDuplicates: nat, start: nat, ghost e0: nat,
                       ghost slack: nat)
    returns (sa: seq<nat>, ghost end: nat)
    requires Named(t, names0, e0, slack) && lastDuplicates == Duplicates(names0) > 0
    requires Pow2(start) <= e0 <= |t| && 1 <= slack <= 2 <= e0
    ensures IsSuffixArray(t, sa) && RoundsBounded(start, end, 0, |t|)
  {
    var names, iteration, lastNumberDuplicates, numberDuplicates := names0, start, lastDuplicates, lastDuplicates;
    ghost var e: nat := e0;
    end := start;
    while true
      invariant Named(t, names, e, slack) && lastNumberDuplicates == Duplicates(names) > 0
      invariant iteration == end && RoundsBounded(start, end, 0, |t|)
      invariant 1 <= Pow2(iteration) <= e <= |t| && slack <= 2 <= e
      decreases |t| - e
    {
      var nextIndex := Pow2(iteration);
      iteration := iteration + 1;
      end := end + 1;
      names, numberDuplicates, e := SortingRound(t, names, nextIndex, e, slack);
      // the program returns early when the duplicates grew, which refinement rules out
      assert numberDuplicates <= lastNumberDuplicates;
      lastNumberDuplicates := numberDuplicates;
      if numberDuplicates == 0 {
        Finished(t, names, e, slack);
        sa := Indexes(names);
        return;
      }
      DuplicatesBoundPrefix(t, names, e, slack);
    }
  }

  /** Thrill's ReduceToIndex with the reduction that keeps the later item. */
  method ReduceToIndex(names: seq<IndexRank>, size: nat) returns (isa: seq<IndexRank>)
    requires IsPerm(Indexes(names), size)
    ensures |isa| == size
    ensures forall k | 0 <= k < |names| :: isa[names[k].index] == names[k]
  {
    isa := seq(size, i => IndexRank(0, 0));
    for k := 0 to |names|
      invariant |isa| == size
      invariant forall m | 0 <= m < k :: isa[names[m].index] == names[m]
    {
      assert forall m | 0 <= m < k :: Indexes(names)[m] != Indexes(names)[k];
      assert Indexes(names)[k] < size;
      isa := isa[names[k].index := names[k]];
    }
  }

  /** The window of `shift + 1` ranks in text order: the first and the last, or zero past the end. */
  function WindowTriples(isa: seq<IndexRank>, shift: nat): (r: seq<IndexRankRank>)
    ensures |r| == |isa|
  {
    seq(|isa|, i requires 0 <= i < |isa| =>
      IndexRankRank(isa[i].index, isa[i].rank, if i + shift < |isa| then isa[i + shift].rank else 0))
  }

  lemma WindowTriplesAreTriples(names: seq<IndexRank>, isa: seq<IndexRank>, r: seq<nat>, shift: nat)
    requires HoldRanks(names, r) && |isa| == |r|
    requires forall k | 0 <= k < |names| :: isa[names[k].index] == names[k]
    ensures AllTriples(WindowTriples(isa, shift), r, shift)
  {
    var tr := WindowTriples(isa, shift);
    var inv := Inverse(Indexes(names), |r|);
    forall i | 0 <= i < |r| ensures isa[i] == IndexRank(i, r[i]) {
      assert Indexes(names)[inv[i]] == i;
      assert isa[names[inv[i]].index] == names[inv[i]];
    }
    assert Map<IndexRankRank, nat>(TripleIndex, tr) == Positions(|r|);
  }

  /** The shift of the window variant fits the named prefix; without packing, which is when the slack
      is two, `k` rounds have named prefixes of 2^k + 1 characters. */
  ghost predicate WindowShift(iteration: nat, e: nat, slack: nat) {
    && iteration >= 1 && 1 <= slack <= 2 <= e
    && Pow2(iteration - 1) + slack <= e + 1
    && (slack == 2 ==> e == Pow2(iteration - 1) + 1)
  }

  lemma FirstShift(e: nat, slack: nat)
    requires e >= 2 && (slack == 1 || (slack == 2 && e == 2))
    ensures WindowShift(Log2Floor(e), e, slack)
  {
  }

  /** One round of the window variant, whose naming does not look at the second rank being zero. */
  method WindowRound(t: Text, names: seq<IndexRank>, iteration: nat, ghost e: nat, ghost slack: nat)
    returns (newNames: seq<IndexRank>, numberDuplicates: nat, ghost e': nat)
    requires |t| >= 2 && Named(t, names, e, slack) && WindowShift(iteration, e, slack)
    ensures e' == e + Pow2(iteration - 1) && Named(t, newNames, e', slack) && WindowShift(iteration + 1, e', slack)
    ensures numberDuplicates == Duplicates(newNames)
  {
    var shift := Pow2(iteration - 1);
    e' := e + shift;
    assert WindowShift(iteration + 1, e', slack);
    ghost var r := RanksByPosition(t, names, e, slack);
    var isa := ReduceToIndex(names, |t|);
    var triple := WindowTriples(isa, shift);
    WindowTriplesAreTriples(names, isa, r, shift);
    var tripleSorted := Sort(triple, TripleLess);
    SortedTriples(triple, r, shift);
    var ind := Indicators(tripleSorted, TripleIndex, SameTriple);
    RoundKeepsNamed(t, r, e, slack, shift, tripleSorted, SameTriple, ind, e');
    numberDuplicates := CountZeros(ind);
    newNames := MaxScan(ind);
  }

  /** Suffix array construction by prefix doubling with windows over the inverse suffix array. */
  method PrefixDoublingWindow(t: Text, packed: bool, indexBits: nat) returns (sa: seq<nat>, ghost end: nat)
    requires Packable(t, packed, indexBits)
    ensures |t| >= GroupSize(t, packed, indexBits) ==> IsSuffixArray(t, sa)
    ensures |t| < GroupSize(t, packed, indexBits) ==> sa == []
    ensures RoundsBounded(Log2Floor(GroupSize(t, packed, indexBits)), end, 1, |t|)
  {
    var names, numberDuplicates, iteration;
    ghost var e, slack;
    names, numberDuplicates, iteration, e, slack := FirstNames(t, packed, indexBits);
    end := iteration;
    if numberDuplicates == 0 {
      if |t| >= e { Finished(t, names, e, slack); }
      sa := Indexes(names);
      return;
    }
    DuplicatesBoundPrefix(t, names, e, slack);
    FirstShift(e, slack);
    sa, end := WindowRounds(t, names, iteration, e, slack);
  }

  /** The loop of the window variant. */
  method WindowRounds(t: Text, names0: seq<IndexRank>, start: nat, ghost e0: nat, ghost slack: nat)
    returns (sa: seq<nat>, ghost end: nat)
    requires Named(t, names0, e0, slack) && Duplicates(names0) > 0 && WindowShift(start, e0, slack) && e0 <= |t|
    ensures IsSuffixArray(t, sa) && RoundsBounded(start, end, 1, |t|)
  {
    var names, iteration, numberDuplicates: nat := names0, start, 0;
    ghost var e: nat := e0;
    end := start;
    while true
      invariant Named(t, names, e, slack) && Duplicates(names) > 0
      invariant iteration == end && RoundsBounded(start, end, 1, |t|)
      invariant WindowShift(iteration, e, slack) && e <= |t|
      decreases |t| - e
    {
      names, numberDuplicates, e := WindowRound(t, names, iteration, e, slack);
      iteration := iteration + 1;
      end := end + 1;
      if numberDuplicates == 0 {
        Finished(t, names, e, slack);
        sa := Indexes(names);
        return;
      }
      DuplicatesBoundPrefix(t, names, e, slack);
    }
  }
}
