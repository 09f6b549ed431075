/**
 Two texts long enough for all levels that DC3 (examples/suffix_sorting/dc3.cpp:271-635) and DC7
 (examples/suffix_sorting/dc7.cpp:409-902) are not bound to sort.
 */
module LostTexts {
  import opened Suffixes
  import opened DifferenceCover
  import opened RecursionOrder
  import opened SampleRanks
  import opened FragmentMerge
  import opened Arrangements
  import opened MergeOutcomes
  import opened DifferenceCoverSort
  import opened DifferenceCoverRuns

  // ---------------------------------------------------------------- a lost text above the padding value

  /** The names of 2 2 2 1 0 0 0, part after part: the second, third and fifth are the same, the fourth is larger. */
  lemma CollisionNames(c: Cover, t: Text, s: Text)
    requires c == Dc3() && t == Collision() && ValidCover(c) && |Samples(c, |t|)| == 5 && s == RecursionString(c, t)
    ensures |s| == 5 && s[1] == s[2] == s[4] < s[3]
  {
    RecursionStringNames(c, t);
    CollisionSameNames(c, t, s);
    CollisionLargerName(c, t, s);
  }

  lemma CollisionSameNames(c: Cover, t: Text, s: Text)
    requires c == Dc3() && t == Collision() && ValidCover(c) && |Samples(c, |t|)| == 5 && NamesTuples(c, t, s)
    ensures s[1] == s[2] == s[4]
  {
    CollisionParts(c, |t|);
    CollisionPlaces(c, |t|);
    CollisionText(t);
    SameNames(c, t, s, 1, 1, 1, 0);
    SameNames(c, t, s, 1, 1, 2, 0);
  }

  lemma CollisionLargerName(c: Cover, t: Text, s: Text)
    requires c == Dc3() && t == Collision() && ValidCover(c) && |Samples(c, |t|)| == 5 && NamesTuples(c, t, s)
    ensures s[1] < s[3]
  {
    CollisionParts(c, |t|);
    CollisionPlaces(c, |t|);
    CollisionText(t);
    NameOrderAt(c, t, s, 1, 0, 0, 1);
  }

  lemma FiveParts(c: Cover, n: nat)
    requires c == Dc3() && n == 5 && ValidCover(c)
    ensures |Samples(c, n)| == 3
    ensures SamplePosition(c, 0) == 1 && SamplePosition(c, 1) == 2 && SamplePosition(c, 2) == 4
  {
    SubproblemHoldsSamples(c, n);
    assert PartStart(c, n, 1) == 2 && PartStart(c, n, 2) == 3;
  }

  lemma CollisionTuplesDiffer(c: Cover, s: Text)
    requires c == Dc3() && ValidCover(c) && |s| == 5 && s[1] == s[2] == s[4] < s[3]
    ensures |Samples(c, |s|)| == 3 && TuplesDiffer(c, s)
  {
    FiveParts(c, |s|);
    forall m: nat, m': nat | m < 3 && m' < 3 && m != m' ensures !SameTuple(c, s, m, m') {
      if SameTuple(c, s, m, m') {
        var i, j := SamplePosition(c, m), SamplePosition(c, m');
        AgreeAt(s, i, j, 3, 1);
        AgreeAt(s, i, j, 3, 2);
      }
    }
  }

  /** The recursion on that string's names is right. */
  lemma CollisionEnds(c: Cover, s: Text)
    requires c == Dc3() && ValidCover(c) && |s| == 5 && s[1] == s[2] == s[4] < s[3]
    ensures RunBound(c, s)
  {
    CollisionTuplesDiffer(c, s);
    RecursionEnds(c, s);
    Dc3IsCover();
    ShallowSees(c, s);
    UniqueRun(c, s);
  }

  lemma CollisionRepeats(c: Cover, t: Text)
    requires c == Dc3() && t == Collision() && ValidCover(c) && |Samples(c, |t|)| == 5
    ensures !NamesUnique(c, t)
  {
    CollisionParts(c, |t|);
    CollisionPlaces(c, |t|);
    CollisionText(t);
    RepeatedTuple(c, t, 1, 1, 2, 0);
  }

  lemma CollisionMayRank(c: Cover, t: Text) returns (r: seq<nat>)
    requires c == Dc3() && t == Collision() && ValidCover(c)
    ensures TwoBlocks(c, |t|) && Ranks(c, t, r) && Complete(c, t, r) && !WeaklyOrdered(c, t, r)
  {
    CollisionParts(c, |t|);
    CollisionRepeats(c, t);
    CollisionNames(c, t, RecursionString(c, t));
    CollisionEnds(c, RecursionString(c, t));
    var y: seq<nat> :| Outcome(c, RecursionString(c, t), y);
    RecursionReturns(c, t, y);
    CollisionIsCyclic(c, t, y);
    r := RanksFromRecursion(c, |t|, y);
  }

  lemma CollidedRepeats(c: Cover, t: Text)
    requires c == Dc3() && t == Collided() && ValidCover(c)
    ensures |Samples(c, |t|)| == 7 && !NamesUnique(c, t)
  {
    CollidedParts(c, |t|);
    CollidedWindows(t);
    RepeatedTuple(c, t, 0, 0, 1, 0);
  }

  /** Two samples with the same tuple. */
  lemma RepeatedTuple(c: Cover, t: Text, b: nat, k: nat, b': nat, k': nat)
    requires ValidCover(c) && t != [] && |Samples(c, |t|)| >= 2 && k < |c.residues| && k' < |c.residues|
    requires b < PartSize(c, |t|, k) && b' < PartSize(c, |t|, k') && (b, k) != (b', k')
    requires Agree(t, Position(c, b, k), Position(c, b', k'), c.period)
    ensures !NamesUnique(c, t)
  {
    var m := SampleOf(c, |t|, b, k);
    var m' := SampleOf(c, |t|, b', k');
    RecursionEnds(c, t);
    assert SameTuple(c, t, m, m');
  }

  /** DC3 is not bound to sort 1 2 1 1 2 1 1 2 1 1 2. */
  lemma CollidedRun(c: Cover, t: Text)
    requires c == Dc3() && t == Collided() && ValidCover(c)
    ensures !RunBound(c, t)
  {
    CollidedRepeats(c, t);
    CollidedRecursesOnCollision(c, t);
    var r := CollisionMayRank(c, RecursionString(c, t));
    UnorderedRun(c, t, r);
  }

  // ---------------------------------------------------------------- a lost text that ends with the padding value

  ghost function Trailing(): Text { [1, 2, 3, 4, 5, 6, 7, 8, 9, 10, 11, 0, 0, 0] }

  lemma TrailingAt(t: Text, x: nat, y: nat)
    requires t == Trailing() && (x < 11 || x == 14) && (y < 11 || y == 14) && x != y
    ensures At(t, x) != At(t, y)
  {
    assert forall z: nat | z < 11 :: t[z] == z + 1;
  }

  lemma TrailingSample(c: Cover, n: nat, m: nat)
    requires c == Dc7() && n == 14 && ValidCover(c)
    ensures |Samples(c, n)| == 7
    ensures m < 7 ==> SamplePosition(c, m) < 11 || SamplePosition(c, m) == 14
  {
    SubproblemHoldsSamples(c, n);
    SizesAsComputed(n);
  }

  lemma TrailingTuples(c: Cover, t: Text)
    requires c == Dc7() && t == Trailing() && ValidCover(c)
    ensures |Samples(c, |t|)| == 7 && TuplesDiffer(c, t)
  {
    TrailingSample(c, |t|, 0);
    forall m: nat, m': nat | m < |Samples(c, |t|)| && m' < |Samples(c, |t|)| && m != m'
      ensures !SameTuple(c, t, m, m') {
      TrailingDiffers(c, t, m, m', SamplePosition(c, m), SamplePosition(c, m'));
    }
  }

  lemma TrailingDiffers(c: Cover, t: Text, m: nat, m': nat, x: nat, y: nat)
    requires c == Dc7() && t == Trailing() && ValidCover(c) && m < 7 && m' < 7 && m != m'
    requires x == SamplePosition(c, m) && y == SamplePosition(c, m')
    ensures !SameTuple(c, t, m, m')
  {
    TrailingSample(c, |t|, m);
    TrailingSample(c, |t|, m');
    SamplesAscend(c, m, m');
    SamplesAscend(c, m', m);
    TrailingAt(t, x, y);
  }

  lemma TrailingBlind(c: Cover, t: Text)
    requires c == Dc7() && t == Trailing() && ValidCover(c)
    ensures Blind(c, t, 11, 13)
  {
    assert Entry(c, 13, 11) == Params(4, 2, 1);
    assert Agree(t, 11, 13, 4);
  }

  /** DC7 is not bound to sort 1 2 3 4 5 6 7 8 9 10 11 0 0 0, although the ranks are right: 11 and 13 are blind. */
  lemma TrailingRun(c: Cover, t: Text)
    requires c == Dc7() && t == Trailing() && ValidCover(c)
    ensures Blind(c, t, 11, 13) && RanksSamples(c, t, RanksFromNames(c, t)) && !RunBound(c, t)
  {
    TrailingTuples(c, t);
    RecursionEnds(c, t);
    TrailingBlind(c, t);
    UniqueNamesRank(c, t);
    UniqueRun(c, t);
  }
}
