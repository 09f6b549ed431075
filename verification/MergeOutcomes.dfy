/**
 What sorting the fragments is bound to give (examples/suffix_sorting/dc3.cpp:597-606 and
 examples/suffix_sorting/dc7.cpp:864-873).  The sort promises a sorted arrangement only when the comparison is a
 strict weak order on the fragments; otherwise it may give them in any order.
 */
module MergeOutcomes {
  import opened Lists
  import opened Suffixes
  import opened DifferenceCover
  import opened RecursionOrder
  import opened SampleRanks
  import opened FragmentMerge
  import opened Arrangements

  /** The sort may give the fragments in the order of `s`. */
  ghost predicate MayGive(c: Cover, t: Text, r: seq<nat>, s: seq<Fragment>)
    requires ValidCover(c)
  {
    ParamsSized(c);
    SortGives(Fragments(c, t, r), FragmentLess(c), s)
  }

  /** Whatever the sort gives within its promise is the suffix array. */
  ghost predicate Bound(c: Cover, t: Text, r: seq<nat>)
    requires ValidCover(c)
  {
    forall s: seq<Fragment> | MayGive(c, t, r, s) :: IsSuffixArray(t, Order(s))
  }

  /** The comparison of any two fragments is that of their suffixes. */
  ghost predicate ToldRight(c: Cover, t: Text, r: seq<nat>)
    requires ValidCover(c)
  {
    forall i: nat, j: nat | i < |t| && j < |t| :: Told(c, t, r, i, j) <==> SufLess(t, i, j)
  }

  /** The comparison is a strict weak order on the fragments. */
  ghost predicate WeaklyOrdered(c: Cover, t: Text, r: seq<nat>)
    requires ValidCover(c)
  {
    ParamsSized(c);
    StrictWeakOrderOn(FragmentLess(c), Fragments(c, t, r))
  }

  /** The modelled merge is one of the orders the sort may give. */
  lemma BoundMergeIsRight(c: Cover, t: Text, r: seq<nat>)
    requires ValidCover(c) && Bound(c, t, r)
    ensures IsSuffixArray(t, Merge(c, t, r))
  {
    ParamsSized(c);
    var s := Sort(Fragments(c, t, r), FragmentLess(c));
    assert MayGive(c, t, r, s);
    assert Merge(c, t, r) == Order(s);
  }

  /** Any sorted arrangement is an order the sort may give. */
  lemma ArrangedMayGive(c: Cover, t: Text, r: seq<nat>, s: seq<Fragment>)
    requires ValidCover(c) && Arranges(c, t, r, s)
    ensures MayGive(c, t, r, s)
  {
  }

  lemma WrongOrderUnbound(c: Cover, t: Text, r: seq<nat>)
    requires ValidCover(c) && AllowsWrongOrder(c, t, r)
    ensures !Bound(c, t, r)
  {
    var s: seq<Fragment> :| Arranges(c, t, r, s) && !IsSuffixArray(t, Order(s));
    ArrangedMayGive(c, t, r, s);
  }

  // ---------------------------------------------------------------- no strict weak order

  /** The positions from the first to the last, and backwards. */
  ghost function Upwards(n: nat): (r: seq<nat>)
    ensures IsPerm(r, n)
  {
    seq<nat>(n, k requires 0 <= k < n => k)
  }

  ghost function Downwards(n: nat): (r: seq<nat>)
    ensures IsPerm(r, n)
  {
    seq<nat>(n, k requires 0 <= k < n => n - 1 - k)
  }

  lemma AnyOrderMayCome(c: Cover, t: Text, r: seq<nat>, order: seq<nat>)
    requires ValidCover(c) && Complete(c, t, r) && !WeaklyOrdered(c, t, r) && IsPerm(order, |t|)
    ensures MayGive(c, t, r, InOrder(c, t, r, order)) && Order(InOrder(c, t, r, order)) == order
  {
    InOrderRearranges(c, t, r, order);
  }

  lemma UnorderedIsUnbound(c: Cover, t: Text, r: seq<nat>)
    requires ValidCover(c) && Complete(c, t, r) && !WeaklyOrdered(c, t, r) && |t| >= 2
    ensures !Bound(c, t, r)
  {
    var up, down := Upwards(|t|), Downwards(|t|);
    AnyOrderMayCome(c, t, r, up);
    AnyOrderMayCome(c, t, r, down);
    assert up[0] != down[0];
    if IsSuffixArray(t, up) && IsSuffixArray(t, down) { SuffixArrayUnique(t, up, down); }
  }

  /** Where the comparison goes round in a circle, no order is sorted, and it is no strict weak order. */
  lemma CycleUnordered(c: Cover, t: Text, r: seq<nat>, i: nat, j: nat, k: nat)
    requires ValidCover(c) && Complete(c, t, r) && i < |t| && j < |t| && k < |t|
    requires Told(c, t, r, i, j) && Told(c, t, r, j, k) && Told(c, t, r, k, i)
    ensures !WeaklyOrdered(c, t, r) && forall s: seq<Fragment> :: !Arranges(c, t, r, s)
  {
    forall s: seq<Fragment> ensures !Arranges(c, t, r, s) { CycleUnsorted(c, t, r, i, j, k, s); }
    ParamsSized(c);
    assert WeaklyOrdered(c, t, r) ==> Arranges(c, t, r, Sort(Fragments(c, t, r), FragmentLess(c)));
  }

  // ---------------------------------------------------------------- when the sort is bound

  lemma RightIsOrdered(c: Cover, t: Text, r: seq<nat>)
    requires ValidCover(c) && Complete(c, t, r) && ToldRight(c, t, r)
    ensures WeaklyOrdered(c, t, r)
  {
    ParamsSized(c);
    RightComparesSuffixes(c, t, r);
    FragmentsAreOrdered(c, t, r, Fragments(c, t, r), FragmentLess(c));
  }

  lemma RightComparesSuffixes(c: Cover, t: Text, r: seq<nat>)
    requires ValidCover(c) && forall a | 0 <= a < c.period :: |c.params[a]| == c.period
    ensures ToldRight(c, t, r) <==> ComparesSuffixes(c, t, r, FragmentLess(c))
  {
    if ToldRight(c, t, r) {
      forall i: nat, j: nat | i < |t| && j < |t|
        ensures FragmentLess(c)(FragmentFor(c, t, r, i), FragmentFor(c, t, r, j)) <==> SufLess(t, i, j) {
        assert Told(c, t, r, i, j) <==> SufLess(t, i, j);
      }
    }
  }

  /** A possible order of a right comparison is the suffix array. */
  lemma RightOrder(c: Cover, t: Text, r: seq<nat>, order: seq<nat>)
    requires ValidCover(c) && ToldRight(c, t, r) && Possible(c, t, r, order)
    ensures IsSuffixArray(t, order)
  {
    forall a: nat, b: nat | a < b < |t| ensures SufLess(t, order[a], order[b]) {
      assert !Told(c, t, r, order[b], order[a]);
      SufTotal(t, order[a], order[b]);
    }
  }

  lemma RightIsBound(c: Cover, t: Text, r: seq<nat>)
    requires ValidCover(c) && Complete(c, t, r) && ToldRight(c, t, r)
    ensures Bound(c, t, r)
  {
    RightIsOrdered(c, t, r);
    forall s: seq<Fragment> | MayGive(c, t, r, s) ensures IsSuffixArray(t, Order(s)) {
      assert Arranges(c, t, r, s);
      ArrangedIsPossible(c, t, r, s);
      RightOrder(c, t, r, Order(s));
    }
  }

  lemma ToldTransitive(c: Cover, t: Text, r: seq<nat>, i: nat, j: nat, k: nat)
    requires ValidCover(c) && Complete(c, t, r) && WeaklyOrdered(c, t, r) && i < |t| && j < |t| && k < |t|
    requires Told(c, t, r, i, j) && Told(c, t, r, j, k)
    ensures Told(c, t, r, i, k)
  {
    ParamsSized(c);
    var z := Fragments(c, t, r);
    assert FragmentFor(c, t, r, i) in z && FragmentFor(c, t, r, j) in z && FragmentFor(c, t, r, k) in z;
  }

  ghost predicate TransitiveTold(c: Cover, t: Text, r: seq<nat>)
    requires ValidCover(c)
  {
    forall i: nat, j: nat, k: nat | i < |t| && j < |t| && k < |t| && Told(c, t, r, i, j) && Told(c, t, r, j, k) ::
      Told(c, t, r, i, k)
  }

  /** When telling apart is transitive, telling the neighbours of the suffix array apart tells all apart. */
  lemma {:induction false} ToldAlong(c: Cover, t: Text, r: seq<nat>, sa: seq<nat>, x: nat, y: nat)
    requires ValidCover(c) && TransitiveTold(c, t, r)
    requires IsPerm(sa, |t|) && NeighboursTold(c, t, r, sa) && x < y < |sa|
    ensures Told(c, t, r, sa[x], sa[y])
    decreases y
  {
    var y' := y - 1;
    assert NeighbourTold(c, t, r, sa, y');
    if x < y' {
      ToldAlong(c, t, r, sa, x, y');
    }
  }

  lemma ForcedIsRight(c: Cover, t: Text, r: seq<nat>, sa: seq<nat>)
    requires ValidCover(c) && TransitiveTold(c, t, r)
    requires IsSuffixArray(t, sa) && NoneMisplaced(c, t, r) && NeighboursTold(c, t, r, sa)
    ensures ToldRight(c, t, r)
  {
    var at := Inverse(sa, |t|);
    forall i: nat, j: nat | i < |t| && j < |t| ensures Told(c, t, r, i, j) <==> SufLess(t, i, j) {
      RankOrder(t, sa, at[i], at[j]);
      if SufLess(t, i, j) { ToldAlong(c, t, r, sa, at[i], at[j]); }
    }
  }

  lemma BoundIsRight(c: Cover, t: Text, r: seq<nat>)
    requires ValidCover(c) && Complete(c, t, r) && WeaklyOrdered(c, t, r) && Bound(c, t, r)
    ensures ToldRight(c, t, r)
  {
    ParamsSized(c);
    var s := Sort(Fragments(c, t, r), FragmentLess(c));
    assert MayGive(c, t, r, s) && Arranges(c, t, r, s);
    if AllowsWrongOrder(c, t, r) { WrongOrderUnbound(c, t, r); }
    ForcedIsExact(c, t, r, Order(s));
    WeakIsTransitive(c, t, r);
    ForcedIsRight(c, t, r, Order(s));
  }

  lemma WeakIsTransitive(c: Cover, t: Text, r: seq<nat>)
    requires ValidCover(c) && Complete(c, t, r) && WeaklyOrdered(c, t, r)
    ensures TransitiveTold(c, t, r)
  {
    forall i: nat, j: nat, k: nat | i < |t| && j < |t| && k < |t| && Told(c, t, r, i, j) && Told(c, t, r, j, k)
      ensures Told(c, t, r, i, k) {
      ToldTransitive(c, t, r, i, j, k);
    }
  }

  lemma FewToldRight(c: Cover, t: Text, r: seq<nat>)
    requires ValidCover(c) && |t| < 2
    ensures ToldRight(c, t, r)
  {
    ParamsSized(c);
    LessIsCompare(c, t, r, 0, 0);
    SufIrreflexive(t, 0);
  }

  /** The sort is bound to give the suffix array exactly when all comparisons are those of the suffixes. */
  lemma BoundIsExact(c: Cover, t: Text, r: seq<nat>)
    requires ValidCover(c) && Complete(c, t, r)
    ensures Bound(c, t, r) <==> ToldRight(c, t, r)
  {
    if ToldRight(c, t, r) {
      RightIsBound(c, t, r);
    } else if |t| < 2 {
      FewToldRight(c, t, r);
    } else if WeaklyOrdered(c, t, r) {
      if Bound(c, t, r) { BoundIsRight(c, t, r); }
    } else {
      UnorderedIsUnbound(c, t, r);
    }
  }

  // ---------------------------------------------------------------- fragments with right ranks

  lemma RanksComplete(c: Cover, t: Text, r: seq<nat>)
    requires ValidCover(c) && TwoBlocks(c, |t|) && |r| == |Samples(c, |t|)|
    ensures Complete(c, t, r)
  {
    BlocksAreFirstPart(c, |t|);
    AtLeastTwoBlocks(c, |t|);
    FragmentsCoverText(c, t, r);
  }

  lemma NothingGiven(c: Cover, t: Text, r: seq<nat>)
    requires ValidCover(c) && Fragments(c, t, r) == []
    ensures Bound(c, t, r) <==> t == []
  {
    assert MayGive(c, t, r, []);
    assert forall s: seq<Fragment> | MayGive(c, t, r, s) :: multiset(s) == multiset(Fragments(c, t, r));
    NothingSorted(t);
    forall s: seq<Fragment> | MayGive(c, t, r, s) ensures s == [] { SameItems(s, Fragments(c, t, r)); }
  }

  lemma TooShort(c: Cover, t: Text, r: seq<nat>)
    requires ValidCover(c) && !TwoBlocks(c, |t|) && |r| <= |Samples(c, |t|)|
    ensures Fragments(c, t, r) == []
  {
    ParamsSized(c);
    NoFragments(c, t, r);
    assert |Merge(c, t, r)| == |Fragments(c, t, r)|;
  }

  /** With right ranks, the sort is bound to give the suffix array exactly when the text is empty, or long enough for
      two blocks and without blind pairs. */
  lemma RightRanksAreExact(c: Cover, t: Text, r: seq<nat>)
    requires ValidCover(c) && RanksSamples(c, t, r)
    ensures Bound(c, t, r) <==> t == [] || (TwoBlocks(c, |t|) && Sees(c, t))
  {
    if TwoBlocks(c, |t|) {
      RanksComplete(c, t, r);
      BoundIsExact(c, t, r);
      ParamsSized(c);
      RightComparesSuffixes(c, t, r);
      ComparisonIsExact(c, t, r);
    } else {
      TooShort(c, t, r);
      NothingGiven(c, t, r);
    }
  }

  // ---------------------------------------------------------------- fragments with ranks from the recursion

  /** The ranks of the samples are the order in which string `s` has their places. */
  ghost predicate RanksBy(c: Cover, t: Text, s: Text, r: seq<nat>)
    requires ValidResidues(c)
  {
    && |r| == |s| == |Samples(c, |t|)| && AllPositive(r)
    && forall m: nat, m': nat | m < |r| && m' < |r| :: RankBy(c, t, s, r, m, m')
  }

  ghost predicate RankBy(c: Cover, t: Text, s: Text, r: seq<nat>, m: nat, m': nat)
    requires ValidResidues(c) && m < |r| && m' < |r|
  {
    r[m] < r[m'] <==> SufLess(s, SamplePlace(c, |t|, m), SamplePlace(c, |t|, m'))
  }

  lemma RecursionRanksBy(c: Cover, t: Text, s: Text, sa: seq<nat>)
    requires ValidResidues(c) && |s| == |Samples(c, |t|)| && IsSuffixArray(s, sa)
    ensures RanksBy(c, t, s, RanksFromRecursion(c, |t|, sa))
  {
    var r := RanksFromRecursion(c, |t|, sa);
    forall m: nat | m < |r| ensures r[m] > 0 { var i := RankedAt(c, |t|, sa, m); }
    forall m: nat, m': nat | m < |r| && m' < |r| ensures RankBy(c, t, s, r, m, m') {
      var i := RankedAt(c, |t|, sa, m);
      var j := RankedAt(c, |t|, sa, m');
      RankOrder(s, sa, i, j);
    }
  }

  /** Comparing the fragments of `i` and `j` comes down to the ranks of samples `m` and `m'`. */
  ghost predicate Compares(c: Cover, t: Text, i: nat, j: nat, m: nat, m': nat)
    requires ValidCover(c)
  {
    && SameCharacters(c, t, i, j) && m < |Samples(c, |t|)| && m' < |Samples(c, |t|)|
    && SamplePosition(c, m) == i + Entry(c, i, j).depth && SamplePosition(c, m') == j + Entry(c, i, j).depth
  }

  /** `s` orders all samples the comparison comes down to like their suffixes. */
  ghost predicate ComparedInOrder(c: Cover, t: Text, s: Text)
    requires ValidCover(c)
  {
    forall i: nat, j: nat, m: nat, m': nat | i < |t| && j < |t| && i != j && Compares(c, t, i, j, m, m') ::
      Ordered(c, t, s, m, m')
  }

  lemma OrderedIsCompared(c: Cover, t: Text, s: Text)
    requires ValidCover(c) && OrdersSamples(c, t, s)
    ensures ComparedInOrder(c, t, s)
  {
    forall i: nat, j: nat, m: nat, m': nat | i < |t| && j < |t| && i != j && Compares(c, t, i, j, m, m')
      ensures Ordered(c, t, s, m, m') { }
  }

  ghost predicate AllPositive(r: seq<nat>) { forall m: nat | m < |r| :: r[m] > 0 }

  lemma RankThere(c: Cover, t: Text, r: seq<nat>, b: nat, k: nat)
    requires ValidCover(c) && |t| > 0 && |r| == |Samples(c, |t|)| && AllPositive(r)
    requires k < |c.residues|
    ensures SampleRank(c, r, b, k) > 0 <==> b < PartSize(c, |t|, k)
    ensures b < PartSize(c, |t|, k) <==> !NoSampleAt(c, |t|, Position(c, b, k))
  {
    var m := SampleNumber(c, b, k);
    SampleNumbers(c, |t|, b, k, m);
    if m < |r| { assert r[m] > 0; }
    NoSampleIs(c, |t|, b, k);
  }

  /** Two samples at the same distance are compared rightly exactly when `s` has them in order. */
  lemma SamplesRight(c: Cover, t: Text, s: Text, r: seq<nat>, i: nat, j: nat, h: nat, m: nat, m': nat)
    requires ValidCover(c) && RanksBy(c, t, s, r) && i < |t| && j < |t| && i != j && Agree(t, i, j, h)
    requires m < |r| && m' < |r| && SamplePosition(c, m) == i + h && SamplePosition(c, m') == j + h
    ensures (r[m] < r[m'] <==> SufLess(t, i, j)) <==> Ordered(c, t, s, m, m')
  {
    SampleInPart(c, |t|, m);
    SampleInPart(c, |t|, m');
    SampleBound(c, |t|, BlockOf(c, m), PartOf(c, m));
    SampleBound(c, |t|, BlockOf(c, m'), PartOf(c, m'));
    SkipEqual(t, i, j, h);
    assert RankBy(c, t, s, r, m, m');
    OrderedByPart(c, t, s, m, m');
  }

  /** A pair of positions whose characters agree is compared rightly exactly when it is not blind and the samples
      that are compared are in order. */
  ghost predicate PairInOrder(c: Cover, t: Text, s: Text, i: nat, j: nat)
    requires ValidCover(c) && i < |t| && j < |t|
  {
    && !(j < i && Blind(c, t, j, i))
    && forall m: nat, m': nat | Compares(c, t, i, j, m, m') :: Ordered(c, t, s, m, m')
  }

  lemma OneSampleRight(c: Cover, t: Text, r: seq<nat>, i: nat, j: nat, h: nat, b: nat, k: nat, b': nat, k': nat)
    requires ValidCover(c) && i < |t| && j < |t| && i != j && Agree(t, i, j, h)
    requires |r| == |Samples(c, |t|)| && AllPositive(r)
    requires k < |c.residues| && Position(c, b, k) == i + h && k' < |c.residues| && Position(c, b', k') == j + h
    requires b < PartSize(c, |t|, k) <==> !(b' < PartSize(c, |t|, k'))
    ensures SampleRank(c, r, b, k) < SampleRank(c, r, b', k') <==> SufLess(t, i, j)
  {
    SampleBound(c, |t|, b, k);
    SampleBound(c, |t|, b', k');
    RankThere(c, t, r, b, k);
    RankThere(c, t, r, b', k');
    if b < PartSize(c, |t|, k) {
      EndsFirst(t, i, j, h);
    } else {
      AgreeSymmetric(t, i, j, h);
      EndsFirst(t, j, i, h);
    }
  }

  lemma OnlyCompared(c: Cover, t: Text, i: nat, j: nat, h: nat, n: nat, n': nat)
    requires ValidCover(c) && SameCharacters(c, t, i, j) && h == Entry(c, i, j).depth
    requires n < |Samples(c, |t|)| && n' < |Samples(c, |t|)|
    requires SamplePosition(c, n) == i + h && SamplePosition(c, n') == j + h
    ensures forall m: nat, m': nat :: Compares(c, t, i, j, m, m') <==> m == n && m' == n'
  {
    forall m: nat, m': nat ensures Compares(c, t, i, j, m, m') <==> m == n && m' == n' {
      SamplesAscend(c, m, n);
      SamplesAscend(c, n, m);
      SamplesAscend(c, m', n');
      SamplesAscend(c, n', m');
    }
  }

  lemma SampleThere(c: Cover, n: nat, m: nat)
    requires ValidCover(c) && m < |Samples(c, n)|
    ensures !NoSampleAt(c, n, SamplePosition(c, m))
  {
    SampleInPart(c, n, m);
    NoSampleIs(c, n, BlockOf(c, m), PartOf(c, m));
  }

  lemma NoSampleNoCompare(c: Cover, t: Text, i: nat, j: nat, p: nat, q: nat)
    requires ValidCover(c) && p == i + Entry(c, i, j).depth && q == j + Entry(c, i, j).depth
    requires NoSampleAt(c, |t|, p) || NoSampleAt(c, |t|, q)
    ensures forall m: nat, m': nat :: !Compares(c, t, i, j, m, m')
  {
    forall m: nat, m': nat | Compares(c, t, i, j, m, m') ensures false {
      SampleThere(c, |t|, m);
      SampleThere(c, |t|, m');
    }
  }

  lemma NumberedRight(c: Cover, t: Text, s: Text, r: seq<nat>, i: nat, j: nat, h: nat, m: nat, m': nat)
    requires ValidCover(c) && RanksBy(c, t, s, r) && i < |t| && j < |t| && i != j
    requires SameCharacters(c, t, i, j) && h == Entry(c, i, j).depth
    requires m < |r| && m' < |r| && SamplePosition(c, m) == i + h && SamplePosition(c, m') == j + h
    ensures (r[m] < r[m'] <==> SufLess(t, i, j)) <==> PairInOrder(c, t, s, i, j)
  {
    SamplesRight(c, t, s, r, i, j, h, m, m');
    OnlyCompared(c, t, i, j, h, m, m');
    SampleThere(c, |t|, m);
    SampleSees(c, t, i, j, h, i + h, j + h);
    assert Compares(c, t, i, j, m, m');
  }

  lemma BothSamplesRight(c: Cover, t: Text, s: Text, r: seq<nat>, i: nat, j: nat, h: nat,
                         b: nat, k: nat, b': nat, k': nat)
    requires ValidCover(c) && RanksBy(c, t, s, r) && i < |t| && j < |t| && i != j
    requires SameCharacters(c, t, i, j) && h == Entry(c, i, j).depth
    requires k < |c.residues| && Position(c, b, k) == i + h && b < PartSize(c, |t|, k)
    requires k' < |c.residues| && Position(c, b', k') == j + h && b' < PartSize(c, |t|, k')
    ensures (SampleRank(c, r, b, k) < SampleRank(c, r, b', k') <==> SufLess(t, i, j)) <==> PairInOrder(c, t, s, i, j)
  {
    var m := SampleOf(c, |t|, b, k);
    var m' := SampleOf(c, |t|, b', k');
    RankIs(c, r, b, k, m);
    RankIs(c, r, b', k', m');
    NumberedRight(c, t, s, r, i, j, h, m, m');
  }

  lemma LoneSampleRight(c: Cover, t: Text, s: Text, r: seq<nat>, i: nat, j: nat, h: nat,
                        b: nat, k: nat, b': nat, k': nat)
    requires ValidCover(c) && |r| == |Samples(c, |t|)| && AllPositive(r) && i < |t| && j < |t| && i != j
    requires SameCharacters(c, t, i, j) && h == Entry(c, i, j).depth
    requires k < |c.residues| && Position(c, b, k) == i + h && k' < |c.residues| && Position(c, b', k') == j + h
    requires b < PartSize(c, |t|, k) <==> !(b' < PartSize(c, |t|, k'))
    ensures SampleRank(c, r, b, k) < SampleRank(c, r, b', k') <==> SufLess(t, i, j)
    ensures PairInOrder(c, t, s, i, j)
  {
    RankThere(c, t, r, b, k);
    RankThere(c, t, r, b', k');
    OneSampleRight(c, t, r, i, j, h, b, k, b', k');
    LoneSampleSeen(c, t, s, i, j, h, i + h, j + h);
  }

  lemma LoneSampleSeen(c: Cover, t: Text, s: Text, i: nat, j: nat, h: nat, p: nat, q: nat)
    requires ValidCover(c) && i < |t| && j < |t| && h == Entry(c, i, j).depth && p == i + h && q == j + h
    requires NoSampleAt(c, |t|, p) <==> !NoSampleAt(c, |t|, q)
    ensures PairInOrder(c, t, s, i, j)
  {
    NoSampleNoCompare(c, t, i, j, p, q);
    SampleSees(c, t, i, j, h, p, q);
  }

  lemma NoSampleRight(c: Cover, t: Text, s: Text, r: seq<nat>, i: nat, j: nat, h: nat,
                      b: nat, k: nat, b': nat, k': nat)
    requires ValidCover(c) && |r| == |Samples(c, |t|)| && AllPositive(r) && i < |t| && j < |t| && i != j
    requires SameCharacters(c, t, i, j) && h == Entry(c, i, j).depth
    requires k < |c.residues| && Position(c, b, k) == i + h && k' < |c.residues| && Position(c, b', k') == j + h
    requires b >= PartSize(c, |t|, k) && b' >= PartSize(c, |t|, k')
    ensures SampleRank(c, r, b, k) == SampleRank(c, r, b', k') == 0
    ensures !SufLess(t, i, j) <==> PairInOrder(c, t, s, i, j)
  {
    RankThere(c, t, r, b, k);
    RankThere(c, t, r, b', k');
    UnseenOrder(c, t, s, i, j, h, i + h, j + h);
  }

  lemma UnseenOrder(c: Cover, t: Text, s: Text, i: nat, j: nat, h: nat, p: nat, q: nat)
    requires ValidCover(c) && i < |t| && j < |t| && i != j && SameCharacters(c, t, i, j) && h == Entry(c, i, j).depth
    requires p == i + h && q == j + h && NoSampleAt(c, |t|, p) && NoSampleAt(c, |t|, q)
    ensures !SufLess(t, i, j) <==> PairInOrder(c, t, s, i, j)
  {
    NoSampleNoCompare(c, t, i, j, p, q);
    NoRanksDecide(c, t, i, j, h, p, q);
    if j < i && Blind(c, t, j, i) { BlindIsWrong(c, t, j, i); }
  }

  lemma FieldsRight(c: Cover, t: Text, s: Text, r: seq<nat>, i: nat, j: nat, h: nat, b: nat, k: nat, b': nat, k': nat)
    requires ValidCover(c) && RanksBy(c, t, s, r) && i < |t| && j < |t| && i != j
    requires SameCharacters(c, t, i, j) && h == Entry(c, i, j).depth
    requires k < |c.residues| && Position(c, b, k) == i + h && k' < |c.residues| && Position(c, b', k') == j + h
    ensures (SampleRank(c, r, b, k) < SampleRank(c, r, b', k') <==> SufLess(t, i, j)) <==> PairInOrder(c, t, s, i, j)
  {
    if b < PartSize(c, |t|, k) && b' < PartSize(c, |t|, k') {
      BothSamplesRight(c, t, s, r, i, j, h, b, k, b', k');
    } else if b < PartSize(c, |t|, k) || b' < PartSize(c, |t|, k') {
      LoneSampleRight(c, t, s, r, i, j, h, b, k, b', k');
    } else {
      NoSampleRight(c, t, s, r, i, j, h, b, k, b', k');
    }
  }

  /** Which pairs the comparison tells rightly, by ranks in the order of `s`. */
  lemma PairRight(c: Cover, t: Text, s: Text, r: seq<nat>, i: nat, j: nat)
    requires ValidCover(c) && RanksBy(c, t, s, r) && i < |t| && j < |t| && i != j
    ensures (Told(c, t, r, i, j) <==> SufLess(t, i, j)) <==> PairInOrder(c, t, s, i, j)
  {
    var p := Entry(c, i, j);
    ParamsSized(c);
    LessIsCompare(c, t, r, i, j);
    FragmentsCompare(c, t, r, i, j);
    if SameCharacters(c, t, i, j) {
      assert ValidRow(c, i % c.period) && ValidRow(c, j % c.period) && ValidEntry(c, i % c.period, j % c.period);
      var b, k := FragmentRank(c, t, r, i, i % c.period, p.first, p.depth);
      var b', k' := FragmentRank(c, t, r, j, j % c.period, p.second, p.depth);
      FieldsRight(c, t, s, r, i, j, p.depth, b, k, b', k');
    } else if Agree(t, j, i, p.depth) {
      AgreeSymmetric(t, j, i, p.depth);
    }
  }

  lemma ToldRightByString(c: Cover, t: Text, s: Text, r: seq<nat>)
    requires ValidCover(c) && RanksBy(c, t, s, r)
    ensures ToldRight(c, t, r) <==> forall i: nat, j: nat | i < |t| && j < |t| && i != j :: PairInOrder(c, t, s, i, j)
  {
    forall i: nat, j: nat | i < |t| && j < |t| && i != j
      ensures (Told(c, t, r, i, j) <==> SufLess(t, i, j)) <==> PairInOrder(c, t, s, i, j) {
      PairRight(c, t, s, r, i, j);
    }
    forall i: nat | i < |t| ensures Told(c, t, r, i, i) <==> SufLess(t, i, i) {
      ParamsSized(c);
      LessIsCompare(c, t, r, i, i);
      SufIrreflexive(t, i);
    }
    if ToldRight(c, t, r) {
      forall i: nat, j: nat | i < |t| && j < |t| && i != j ensures PairInOrder(c, t, s, i, j) {
        assert Told(c, t, r, i, j) <==> SufLess(t, i, j);
      }
    }
  }

  lemma PairsInOrder(c: Cover, t: Text, s: Text)
    requires ValidCover(c)
    ensures (forall i: nat, j: nat | i < |t| && j < |t| && i != j :: PairInOrder(c, t, s, i, j))
       <==> Sees(c, t) && ComparedInOrder(c, t, s)
  {
    if forall i: nat, j: nat | i < |t| && j < |t| && i != j :: PairInOrder(c, t, s, i, j) {
      forall i: nat, j: nat | i < j < |t| ensures !Blind(c, t, i, j) { assert PairInOrder(c, t, s, j, i); }
      forall i: nat, j: nat, m: nat, m': nat | i < |t| && j < |t| && i != j && Compares(c, t, i, j, m, m')
        ensures Ordered(c, t, s, m, m') { assert PairInOrder(c, t, s, i, j); }
    }
  }

  /** With ranks from a suffix array of `s`, the sort is bound to give the suffix array exactly when no pair is blind
      and `s` orders the samples that are compared. */
  lemma RecursionIsExact(c: Cover, t: Text, s: Text, sa: seq<nat>)
    requires ValidCover(c) && TwoBlocks(c, |t|) && |s| == |Samples(c, |t|)| && IsSuffixArray(s, sa)
    ensures Bound(c, t, RanksFromRecursion(c, |t|, sa)) <==> Sees(c, t) && ComparedInOrder(c, t, s)
  {
    var r := RanksFromRecursion(c, |t|, sa);
    RecursionRanksBy(c, t, s, sa);
    RanksComplete(c, t, r);
    BoundIsExact(c, t, r);
    ToldRightByString(c, t, s, r);
    PairsInOrder(c, t, s);
  }

  // ---------------------------------------------------------------- fragments without ranks

  /** The characters that are compared tell every two suffixes apart. */
  ghost predicate CharactersTell(c: Cover, t: Text)
    requires ValidCover(c)
  {
    forall i: nat, j: nat | i < |t| && j < |t| && SufLess(t, i, j) :: !SameCharacters(c, t, i, j)
  }

  lemma RanklessToldRight(c: Cover, t: Text)
    requires ValidCover(c)
    ensures ToldRight(c, t, []) <==> CharactersTell(c, t)
  {
    forall i: nat, j: nat | i < |t| && j < |t|
      ensures Told(c, t, [], i, j) <==> !SameCharacters(c, t, i, j) && SufLess(t, i, j) {
      RanklessOrder(c, t, i, j);
    }
    if ToldRight(c, t, []) {
      forall i: nat, j: nat | i < |t| && j < |t| && SufLess(t, i, j) ensures !SameCharacters(c, t, i, j) {
        assert Told(c, t, [], i, j);
      }
    }
  }

  /** Without ranks, the sort is bound to give the suffix array exactly when the text is empty, or every position has
      a fragment and the characters that are compared tell every two suffixes apart. */
  lemma RanklessIsExact(c: Cover, t: Text)
    requires ValidCover(c)
    ensures Bound(c, t, []) <==> t == [] || (ReachesEnd(c, |t|) && CharactersTell(c, t))
  {
    if t == [] {
      TooShort(c, t, []);
      NothingGiven(c, t, []);
    } else if ReachesEnd(c, |t|) {
      RanklessComplete(c, t);
      BoundIsExact(c, t, []);
      RanklessToldRight(c, t);
    } else {
      MissingEndAllowsWrong(c, t);
      WrongOrderUnbound(c, t, []);
    }
  }

  /** Two positions of the text whose table entries compare no characters. */
  ghost predicate ComparesNothing(c: Cover, i: nat, j: nat)
    requires ValidCover(c)
  {
    Entry(c, i, j).depth == 0 && Entry(c, j, i).depth == 0
  }

  lemma NothingComparedUnbound(c: Cover, t: Text, i: nat, j: nat)
    requires ValidCover(c) && i < |t| && j < |t| && i != j && ComparesNothing(c, i, j)
    ensures !Bound(c, t, [])
  {
    RanklessIsExact(c, t);
    SufTotal(t, i, j);
    assert SameCharacters(c, t, i, j) && SameCharacters(c, t, j, i);
  }
}
