/**
 Whole runs of DC3Recursive (examples/suffix_sorting/dc3.cpp:271-635) and DC7Recursive
 (examples/suffix_sorting/dc7.cpp:409-902): what they may return when every level's sort of the fragments gives
 whatever it may, and on which texts that is bound to be the suffix array.
 */
module DifferenceCoverRuns {
  import opened Lists
  import opened Suffixes
  import opened DifferenceCover
  import opened SampleRanks
  import opened FragmentMerge
  import opened Arrangements
  import opened MergeOutcomes
  import opened DifferenceCoverSort
  import opened DifferenceCoverEnds

  // ---------------------------------------------------------------- what a run may return

  /** The sort of the fragments may give the positions in the order of `x`. */
  ghost predicate Gives(c: Cover, t: Text, r: seq<nat>, x: seq<nat>)
    requires ValidCover(c)
  {
    exists s: seq<Fragment> :: MayGive(c, t, r, s) && x == Order(s)
  }

  /** A run on `t` may return `x`.  Without two blocks there are no fragments, and the result is empty. */
  ghost predicate Outcome(c: Cover, t: Text, x: seq<nat>)
    requires ValidCover(c) && (c == Dc3() || c == Dc7())
    decreases |t|, 1
  {
    if TwoBlocks(c, |t|) then exists r: seq<nat> :: Ranks(c, t, r) && Gives(c, t, r, x)
    else Ends(c, t) && x == []
  }

  /** A run on `t` may rank the samples by `r`. */
  ghost predicate Ranks(c: Cover, t: Text, r: seq<nat>)
    requires ValidCover(c) && (c == Dc3() || c == Dc7()) && TwoBlocks(c, |t|)
    decreases |t|, 0
  {
    TwoBlocksTwoSamples(c, |t|);
    SubproblemShrinks(c, t);
    if NamesUnique(c, t) then r == RanksFromNames(c, t)
    else exists y: seq<nat> :: Outcome(c, RecursionString(c, t), y) && r == RanksFromRecursion(c, |t|, y)
  }

  ghost predicate HasOutcome(c: Cover, t: Text)
    requires ValidCover(c) && (c == Dc3() || c == Dc7())
  {
    exists x: seq<nat> :: Outcome(c, t, x)
  }

  /** Runs on `t` end, and whatever they return is the suffix array. */
  ghost predicate RunBound(c: Cover, t: Text)
    requires ValidCover(c) && (c == Dc3() || c == Dc7())
  {
    HasOutcome(c, t) && forall x: seq<nat> | Outcome(c, t, x) :: IsSuffixArray(t, x)
  }

  lemma GivesSomething(c: Cover, t: Text, r: seq<nat>)
    requires ValidCover(c)
    ensures Gives(c, t, r, Merge(c, t, r))
  {
    ParamsSized(c);
    var s := Sort(Fragments(c, t, r), FragmentLess(c));
    assert MayGive(c, t, r, s) && Merge(c, t, r) == Order(s);
  }

  lemma BoundGives(c: Cover, t: Text, r: seq<nat>)
    requires ValidCover(c)
    ensures Bound(c, t, r) <==> forall x: seq<nat> | Gives(c, t, r, x) :: IsSuffixArray(t, x)
  {
    if forall x: seq<nat> | Gives(c, t, r, x) :: IsSuffixArray(t, x) {
      forall s: seq<Fragment> | MayGive(c, t, r, s) ensures IsSuffixArray(t, Order(s)) {
        assert Gives(c, t, r, Order(s));
      }
    }
  }

  lemma OutcomeOf(c: Cover, t: Text, r: seq<nat>, x: seq<nat>)
    requires ValidCover(c) && (c == Dc3() || c == Dc7()) && TwoBlocks(c, |t|) && Ranks(c, t, r) && Gives(c, t, r, x)
    ensures Outcome(c, t, x)
  {
  }

  lemma OutcomeFrom(c: Cover, t: Text, x: seq<nat>) returns (r: seq<nat>)
    requires ValidCover(c) && (c == Dc3() || c == Dc7()) && TwoBlocks(c, |t|) && Outcome(c, t, x)
    ensures Ranks(c, t, r) && Gives(c, t, r, x)
  {
    r :| Ranks(c, t, r) && Gives(c, t, r, x);
  }

  lemma RanksOf(c: Cover, t: Text, y: seq<nat>)
    requires ValidCover(c) && (c == Dc3() || c == Dc7()) && TwoBlocks(c, |t|) && !NamesUnique(c, t)
    requires |Samples(c, |t|)| >= 2 && Outcome(c, RecursionString(c, t), y)
    ensures Ranks(c, t, RanksFromRecursion(c, |t|, y))
  {
  }

  lemma RanksFrom(c: Cover, t: Text, r: seq<nat>) returns (y: seq<nat>)
    requires ValidCover(c) && (c == Dc3() || c == Dc7()) && TwoBlocks(c, |t|) && !NamesUnique(c, t)
    requires |Samples(c, |t|)| >= 2 && Ranks(c, t, r)
    ensures Outcome(c, RecursionString(c, t), y) && r == RanksFromRecursion(c, |t|, y)
  {
    y :| Outcome(c, RecursionString(c, t), y) && r == RanksFromRecursion(c, |t|, y);
  }

  /** Where a run may return something, the recursion ends. */
  lemma {:induction false} OutcomeEnds(c: Cover, t: Text, x: seq<nat>)
    requires ValidCover(c) && (c == Dc3() || c == Dc7()) && Outcome(c, t, x)
    ensures Ends(c, t)
    decreases |t|, 1
  {
    if TwoBlocks(c, |t|) {
      var r := OutcomeFrom(c, t, x);
      RanksEnd(c, t, r);
    }
  }

  lemma {:induction false} RanksEnd(c: Cover, t: Text, r: seq<nat>)
    requires ValidCover(c) && (c == Dc3() || c == Dc7()) && TwoBlocks(c, |t|) && Ranks(c, t, r)
    ensures Ends(c, t)
    decreases |t|, 0
  {
    TwoBlocksTwoSamples(c, |t|);
    SubproblemShrinks(c, t);
    if NamesUnique(c, t) {
      EndsAtOnce(c, t);
    } else {
      var y := RanksFrom(c, t, r);
      OutcomeEnds(c, RecursionString(c, t), y);
      EndsAbove(c, t);
    }
  }

  /** Where the recursion ends, a run may return something. */
  lemma {:induction false} SomeOutcome(c: Cover, t: Text) returns (x: seq<nat>)
    requires ValidCover(c) && (c == Dc3() || c == Dc7()) && Ends(c, t)
    ensures Outcome(c, t, x)
    decreases |t|, 1
  {
    if TwoBlocks(c, |t|) {
      var r := SomeRanks(c, t);
      GivesSomething(c, t, r);
      x := Merge(c, t, r);
      OutcomeOf(c, t, r, x);
    } else {
      x := [];
    }
  }

  lemma {:induction false} SomeRanks(c: Cover, t: Text) returns (r: seq<nat>)
    requires ValidCover(c) && (c == Dc3() || c == Dc7()) && TwoBlocks(c, |t|) && Ends(c, t)
    ensures Ranks(c, t, r)
    decreases |t|, 0
  {
    TwoBlocksTwoSamples(c, |t|);
    SubproblemShrinks(c, t);
    if NamesUnique(c, t) {
      r := RanksFromNames(c, t);
    } else {
      EndsAbove(c, t);
      var y := SomeOutcome(c, RecursionString(c, t));
      r := RanksFromRecursion(c, |t|, y);
      RanksOf(c, t, y);
    }
  }

  /** A run may return something exactly when the recursion ends. */
  lemma OutcomeIfEnds(c: Cover, t: Text)
    requires ValidCover(c) && (c == Dc3() || c == Dc7())
    ensures HasOutcome(c, t) <==> Ends(c, t)
  {
    if Ends(c, t) {
      var x := SomeOutcome(c, t);
      assert Outcome(c, t, x);
    } else {
      forall x: seq<nat> ensures !Outcome(c, t, x) {
        if Outcome(c, t, x) { OutcomeEnds(c, t, x); }
      }
    }
  }

  lemma RunBoundRanks(c: Cover, t: Text, r: seq<nat>)
    requires ValidCover(c) && (c == Dc3() || c == Dc7()) && TwoBlocks(c, |t|) && RunBound(c, t) && Ranks(c, t, r)
    ensures Bound(c, t, r)
  {
    forall x: seq<nat> | Gives(c, t, r, x) ensures IsSuffixArray(t, x) { OutcomeOf(c, t, r, x); }
    BoundGives(c, t, r);
  }

  lemma UnboundRanksRun(c: Cover, t: Text, r: seq<nat>)
    requires ValidCover(c) && (c == Dc3() || c == Dc7()) && TwoBlocks(c, |t|) && Ranks(c, t, r) && !Bound(c, t, r)
    ensures !RunBound(c, t)
  {
    if RunBound(c, t) { RunBoundRanks(c, t, r); }
  }

  lemma BoundRanksRun(c: Cover, t: Text)
    requires ValidCover(c) && (c == Dc3() || c == Dc7()) && TwoBlocks(c, |t|) && Ends(c, t)
    requires forall r: seq<nat> | Ranks(c, t, r) :: Bound(c, t, r)
    ensures RunBound(c, t)
  {
    OutcomeIfEnds(c, t);
    forall x: seq<nat> | Outcome(c, t, x) ensures IsSuffixArray(t, x) {
      var r := OutcomeFrom(c, t, x);
      BoundGives(c, t, r);
    }
  }

  // ---------------------------------------------------------------- which runs are bound

  /** Texts without two blocks: only the empty one is sorted. */
  lemma ShortRun(c: Cover, t: Text)
    requires ValidCover(c) && (c == Dc3() || c == Dc7()) && !TwoBlocks(c, |t|)
    ensures RunBound(c, t) <==> t == []
  {
    NothingSorted(t);
    OutcomeIfEnds(c, t);
    if t == [] { EndsAtOnce(c, t); }
  }

  /** Texts whose samples all have different tuples. */
  lemma UniqueRun(c: Cover, t: Text)
    requires ValidCover(c) && (c == Dc3() || c == Dc7()) && TwoBlocks(c, |t|) && NamesUnique(c, t)
    ensures RunBound(c, t) <==> Sees(c, t)
  {
    TwoBlocksTwoSamples(c, |t|);
    EndsAtOnce(c, t);
    UniqueNamesRank(c, t);
    RightRanksAreExact(c, t, RanksFromNames(c, t));
    if RunBound(c, t) { RunBoundRanks(c, t, RanksFromNames(c, t)); }
    if Sees(c, t) { BoundRanksRun(c, t); }
  }

  lemma RecursionReturns(c: Cover, t: Text, y: seq<nat>)
    requires ValidCover(c) && (c == Dc3() || c == Dc7()) && TwoBlocks(c, |t|) && !NamesUnique(c, t)
    requires |Samples(c, |t|)| >= 2 && Outcome(c, RecursionString(c, t), y)
    ensures Ranks(c, t, RanksFromRecursion(c, |t|, y)) && Ends(c, t)
  {
    RanksOf(c, t, y);
    RanksEnd(c, t, RanksFromRecursion(c, |t|, y));
  }

  /** Texts whose recursion string is sorted: whether the text is, is decided by blind pairs and by the order of the
      samples that are compared. */
  lemma RecursiveRun(c: Cover, t: Text)
    requires ValidCover(c) && (c == Dc3() || c == Dc7()) && TwoBlocks(c, |t|) && !NamesUnique(c, t)
    requires |Samples(c, |t|)| >= 2 && RunBound(c, RecursionString(c, t))
    ensures RunBound(c, t) <==> Sees(c, t) && ComparedInOrder(c, t, RecursionString(c, t))
  {
    var s := RecursionString(c, t);
    var y: seq<nat> :| Outcome(c, s, y);
    RecursionReturns(c, t, y);
    RecursionIsExact(c, t, s, y);
    if RunBound(c, t) { RunBoundRanks(c, t, RanksFromRecursion(c, |t|, y)); }
    if Bound(c, t, RanksFromRecursion(c, |t|, y)) {
      forall r: seq<nat> | Ranks(c, t, r) ensures Bound(c, t, r) {
        var y' := RanksFrom(c, t, r);
        SuffixArrayUnique(s, y, y');
      }
      BoundRanksRun(c, t);
    }
  }

  /** Texts whose recursion string has no two blocks are lost. */
  lemma LostRun(c: Cover, t: Text)
    requires ValidCover(c) && (c == Dc3() || c == Dc7()) && TwoBlocks(c, |t|) && !NamesUnique(c, t)
    requires |Samples(c, |t|)| >= 2 && !TwoBlocks(c, |Samples(c, |t|)|)
    ensures !RunBound(c, t)
  {
    if Ends(c, t) {
      EndsAbove(c, t);
      NothingReturned(c, t);
      NeverBoundWithoutRanks(c, t);
      UnboundRanksRun(c, t, []);
    } else {
      EndlessRun(c, t);
    }
  }

  lemma EndlessRun(c: Cover, t: Text)
    requires ValidCover(c) && (c == Dc3() || c == Dc7()) && !Ends(c, t)
    ensures !RunBound(c, t)
  {
    OutcomeIfEnds(c, t);
  }

  lemma NothingReturned(c: Cover, t: Text)
    requires ValidCover(c) && (c == Dc3() || c == Dc7()) && TwoBlocks(c, |t|) && !NamesUnique(c, t)
    requires |Samples(c, |t|)| >= 2 && !TwoBlocks(c, |Samples(c, |t|)|) && Ends(c, RecursionString(c, t))
    ensures Ranks(c, t, [])
  {
    assert Outcome(c, RecursionString(c, t), []);
    RanksOf(c, t, []);
    assert RanksFromRecursion(c, |t|, []) == [];
  }

  /** These are the texts of 4 and 5 characters in DC3, and of 7 to 13 in DC7, in which two samples have the same
      tuple. */
  lemma LostLengths(c: Cover, t: Text)
    requires ValidCover(c) && (c == Dc3() || c == Dc7()) && TwoBlocks(c, |t|) && !NamesUnique(c, t)
    requires |t| < if c == Dc3() then 6 else 14
    ensures !RunBound(c, t)
  {
    FewSamples(c, |t|);
    LostRun(c, t);
  }

  lemma FewSamples(c: Cover, n: nat)
    requires ValidCover(c) && (c == Dc3() || c == Dc7()) && TwoBlocks(c, n) && n < if c == Dc3() then 6 else 14
    ensures |Samples(c, n)| >= 2 && !TwoBlocks(c, |Samples(c, n)|)
  {
    TwoBlocksTwoSamples(c, n);
    SubproblemHoldsSamples(c, n);
    SizesAsComputed(n);
  }

  /** Every run on a safe text ends with the suffix array. */
  lemma {:induction false} SafeRun(c: Cover, t: Text)
    requires ValidCover(c) && (c == Dc3() || c == Dc7()) && Safe(c, t)
    ensures RunBound(c, t)
    decreases |t|
  {
    TwoBlocksTwoSamples(c, |t|);
    SubproblemShrinks(c, t);
    if NamesUnique(c, t) {
      UniqueRun(c, t);
    } else {
      SafeRun(c, RecursionString(c, t));
      RecursiveRun(c, t);
    }
  }

  // ---------------------------------------------------------------- recursion strings in any order

  /** Two samples that are compared by their own ranks. */
  lemma OwnRanks(c: Cover, t: Text, r: seq<nat>)
    requires ValidCover(c) && (c == Dc3() || c == Dc7()) && TwoBlocks(c, |t|) && |r| == |Samples(c, |t|)| >= 2
    ensures Told(c, t, r, c.residues[0], c.residues[1]) <==> r[0] < r[1]
  {
    var i, j := c.residues[0], c.residues[1];
    TablesCompareNothing(c);
    ParamsSized(c);
    LessIsCompare(c, t, r, i, j);
    FragmentsCompare(c, t, r, i, j);
    assert ValidRow(c, i % c.period) && ValidRow(c, j % c.period) && ValidEntry(c, i % c.period, j % c.period);
    OwnRank(c, t, r, i, 0, Entry(c, i, j).first);
    OwnRank(c, t, r, j, 1, Entry(c, i, j).second);
  }

  lemma OwnRank(c: Cover, t: Text, r: seq<nat>, i: nat, k: nat, f: nat)
    requires ValidCover(c) && k < |c.residues| && i == c.residues[k] < c.period && |r| > k
    requires ValidRow(c, i % c.period) && FieldAt(c, i % c.period, f, 0)
    ensures RankAt(FragmentFor(c, t, r, i), f) == r[k]
  {
    var b, k' := FragmentRank(c, t, r, i, i % c.period, f, 0);
    PositionOrder(c, b, k', 0, k);
    PositionOrder(c, 0, k, b, k');
    RankIs(c, r, 0, k, k);
  }

  lemma OrderRanks(c: Cover, n: nat, y: seq<nat>, m: nat, m': nat)
    requires ValidResidues(c) && IsPerm(y, |Samples(c, n)|) && m < |y| && m' < |y|
    requires SamplePlace(c, n, m) < |y| && SamplePlace(c, n, m') < |y|
    ensures var r := RanksFromRecursion(c, n, y);
            r[m] < r[m'] <==> Inverse(y, |y|)[SamplePlace(c, n, m)] < Inverse(y, |y|)[SamplePlace(c, n, m')]
  {
    var i := RankedAt(c, n, y, m);
    var j := RankedAt(c, n, y, m');
  }

  /** Where the sort is bound, the returned order has the first two samples in order. */
  lemma BoundKeepsFirst(c: Cover, t: Text, y: seq<nat>, x: nat, x': nat)
    requires ValidCover(c) && (c == Dc3() || c == Dc7()) && TwoBlocks(c, |t|) && |Samples(c, |t|)| >= 2
    requires IsPerm(y, |Samples(c, |t|)|) && x < |y| && x' < |y|
    requires x == SamplePlace(c, |t|, 0) && x' == SamplePlace(c, |t|, 1)
    requires Bound(c, t, RanksFromRecursion(c, |t|, y))
    ensures Inverse(y, |y|)[x] < Inverse(y, |y|)[x'] <==> SufLess(t, c.residues[0], c.residues[1])
  {
    var r := RanksFromRecursion(c, |t|, y);
    RanksComplete(c, t, r);
    BoundIsExact(c, t, r);
    OrderRanks(c, |t|, y, 0, 1);
    OwnRanks(c, t, r);
    TablesCompareNothing(c);
    assert Told(c, t, r, c.residues[0], c.residues[1]) <==> SufLess(t, c.residues[0], c.residues[1]);
  }

  /** A recursion string returned upwards or downwards: one of the two ranks the first two samples wrongly. */
  lemma UpOrDownWrong(c: Cover, t: Text)
    requires ValidCover(c) && (c == Dc3() || c == Dc7()) && TwoBlocks(c, |t|) && |Samples(c, |t|)| >= 2
    ensures var n := |Samples(c, |t|)|;
            || !Bound(c, t, RanksFromRecursion(c, |t|, Upwards(n)))
            || !Bound(c, t, RanksFromRecursion(c, |t|, Downwards(n)))
  {
    var n, x, x' := |Samples(c, |t|)|, SamplePlace(c, |t|, 0), SamplePlace(c, |t|, 1);
    PlaceBound(c, |t|, 0);
    PlaceBound(c, |t|, 1);
    FirstPlaces(c, |t|);
    Opposite(n, x, x');
    if Bound(c, t, RanksFromRecursion(c, |t|, Upwards(n))) { BoundKeepsFirst(c, t, Upwards(n), x, x'); }
    if Bound(c, t, RanksFromRecursion(c, |t|, Downwards(n))) { BoundKeepsFirst(c, t, Downwards(n), x, x'); }
  }

  lemma Opposite(n: nat, x: nat, x': nat)
    requires x < n && x' < n && x != x'
    ensures Inverse(Upwards(n), n)[x] < Inverse(Upwards(n), n)[x']
       <==> !(Inverse(Downwards(n), n)[x] < Inverse(Downwards(n), n)[x'])
  {
    assert Upwards(n)[x] == x && Upwards(n)[x'] == x';
    assert Downwards(n)[n - 1 - x] == x && Downwards(n)[n - 1 - x'] == x';
  }

  lemma FirstPlaces(c: Cover, n: nat)
    requires ValidResidues(c) && |Samples(c, n)| >= 2
    ensures SamplePlace(c, n, 0) != SamplePlace(c, n, 1)
  {
    SampleInPart(c, n, 0);
    SampleInPart(c, n, 1);
    PlaceOrder(c, n, 0, BlockOf(c, 0), PartOf(c, 0), 1, BlockOf(c, 1), PartOf(c, 1));
  }

  /** Where the run on the recursion string may compare by no strict weak order, the text is lost. */
  lemma UnorderedRun(c: Cover, t: Text, r: seq<nat>)
    requires ValidCover(c) && (c == Dc3() || c == Dc7()) && TwoBlocks(c, |t|) && !NamesUnique(c, t)
    requires |Samples(c, |t|)| >= 2 && TwoBlocks(c, |Samples(c, |t|)|) && Ranks(c, RecursionString(c, t), r)
    requires Complete(c, RecursionString(c, t), r) && !WeaklyOrdered(c, RecursionString(c, t), r)
    ensures !RunBound(c, t)
  {
    var s := RecursionString(c, t);
    AnyOutcome(c, s, r, Upwards(|s|));
    AnyOutcome(c, s, r, Downwards(|s|));
    RecursionReturns(c, t, Upwards(|s|));
    RecursionReturns(c, t, Downwards(|s|));
    UpOrDownWrong(c, t);
    if Bound(c, t, RanksFromRecursion(c, |t|, Upwards(|s|))) {
      UnboundRanksRun(c, t, RanksFromRecursion(c, |t|, Downwards(|s|)));
    } else {
      UnboundRanksRun(c, t, RanksFromRecursion(c, |t|, Upwards(|s|)));
    }
  }

  lemma AnyOutcome(c: Cover, s: Text, r: seq<nat>, order: seq<nat>)
    requires ValidCover(c) && (c == Dc3() || c == Dc7()) && TwoBlocks(c, |s|) && Ranks(c, s, r)
    requires Complete(c, s, r) && !WeaklyOrdered(c, s, r) && IsPerm(order, |s|)
    ensures Outcome(c, s, order)
  {
    AnyOrderMayCome(c, s, r, order);
    assert Gives(c, s, r, order);
  }
}
