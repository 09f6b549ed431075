/**
 DC3 (examples/suffix_sorting/dc3.cpp) and DC7 (examples/suffix_sorting/dc7.cpp): their tables, one level
 of the recursion with any correct ranker, and the whole recursion on the texts it is right on.
 */
module DifferenceCoverSort {
  import opened Arithmetic
  import opened Suffixes
  import opened DifferenceCover
  import opened RecursionOrder
  import opened SampleRanks
  import opened FragmentMerge
  import opened Arrangements
  import opened MergeOutcomes

  function Dc3(): Cover {
    Cover(3, [1, 2],
      [
      [RankField(0, 0), RankField(0, 1)],
      [RankField(0, 0), RankField(0, 1)],
      [RankField(0, 1), RankField(1, 0)]
      ],
      [2, 1, 2],
      [
      [Params(1, 0, 0), Params(1, 0, 1), Params(2, 1, 1)],
      [Params(1, 1, 0), Params(0, 0, 0), Params(0, 0, 0)],
      [Params(2, 1, 1), Params(0, 0, 0), Params(0, 0, 0)]
      ])
  }

  function Dc7(): Cover {
    Cover(7, [0, 1, 3],
      [
      [RankField(0, 0), RankField(0, 1), RankField(0, 2)],
      [RankField(0, 1), RankField(0, 2), RankField(1, 0)],
      [RankField(0, 2), RankField(1, 0), RankField(1, 1)],
      [RankField(0, 2), RankField(1, 0), RankField(1, 1)],
      [RankField(1, 0), RankField(1, 1), RankField(1, 2)],
      [RankField(1, 0), RankField(1, 1), RankField(1, 2)],
      [RankField(1, 0), RankField(1, 1), RankField(1, 2)]
      ],
      [3, 6, 6, 5, 6, 5, 4],
      [
      [Params(0, 0, 0), Params(0, 0, 0), Params(1, 1, 0), Params(0, 0, 0), Params(3, 2, 0), Params(3, 2, 1), Params(1, 1, 0)],
      [Params(0, 0, 0), Params(0, 0, 0), Params(6, 2, 2), Params(0, 0, 0), Params(6, 2, 2), Params(2, 1, 0), Params(2, 1, 1)],
      [Params(1, 0, 1), Params(6, 2, 2), Params(1, 0, 0), Params(5, 1, 2), Params(6, 2, 2), Params(5, 1, 2), Params(1, 0, 0)],
      [Params(0, 0, 0), Params(0, 0, 0), Params(5, 2, 1), Params(0, 0, 0), Params(4, 1, 1), Params(5, 2, 2), Params(4, 1, 2)],
      [Params(3, 0, 2), Params(6, 2, 2), Params(6, 2, 2), Params(4, 1, 1), Params(3, 0, 0), Params(3, 0, 1), Params(4, 1, 2)],
      [Params(3, 1, 2), Params(2, 0, 1), Params(5, 2, 1), Params(5, 2, 2), Params(3, 1, 0), Params(2, 0, 0), Params(2, 0, 1)],
      [Params(1, 0, 1), Params(2, 1, 1), Params(1, 0, 0), Params(4, 2, 1), Params(4, 2, 1), Params(2, 1, 0), Params(1, 0, 0)]
      ])
  }

  lemma Dc3Rows(a: nat)
    requires a < 3
    ensures ValidRow(Dc3(), a)
  {
  }

  lemma Dc3Entry(a: nat, b: nat)
    requires a < 3 && b < 3
    ensures ValidRow(Dc3(), a) && ValidRow(Dc3(), b) && ValidEntry(Dc3(), a, b)
  {
    Dc3Rows(a);
    Dc3Rows(b);
  }

  lemma Dc3IsCover()
    ensures ValidCover(Dc3()) && Shallow(Dc3())
  {
    var c := Dc3();
    forall a: nat | a < 3 ensures ValidRow(c, a) { Dc3Rows(a); }
    forall a: nat, b: nat | a < 3 && b < 3 ensures ValidEntry(c, a, b) { Dc3Entry(a, b); }
    Dc3IsShallow(c);
  }

  lemma Dc3IsShallow(c: Cover)
    requires c == Dc3() && ValidCover(c)
    ensures Shallow(c)
  {
    forall a: nat, b: nat | a < 3 && b < 3 ensures ShallowEntry(c, a, b) { }
  }

  lemma Dc7Rows(a: nat)
    requires a < 7
    ensures ValidRow(Dc7(), a)
  {
  }

  lemma Dc7Entry0(b: nat)
    requires b < 7 && ValidRow(Dc7(), 0) && ValidRow(Dc7(), b)
    ensures ValidEntry(Dc7(), 0, b)
  {
  }

  lemma Dc7Entry1(b: nat)
    requires b < 7 && ValidRow(Dc7(), 1) && ValidRow(Dc7(), b)
    ensures ValidEntry(Dc7(), 1, b)
  {
  }

  lemma Dc7Entry2(b: nat)
    requires b < 7 && ValidRow(Dc7(), 2) && ValidRow(Dc7(), b)
    ensures ValidEntry(Dc7(), 2, b)
  {
  }

  lemma Dc7Entry3(b: nat)
    requires b < 7 && ValidRow(Dc7(), 3) && ValidRow(Dc7(), b)
    ensures ValidEntry(Dc7(), 3, b)
  {
  }

  lemma Dc7Entry4(b: nat)
    requires b < 7 && ValidRow(Dc7(), 4) && ValidRow(Dc7(), b)
    ensures ValidEntry(Dc7(), 4, b)
  {
  }

  lemma Dc7Entry5(b: nat)
    requires b < 7 && ValidRow(Dc7(), 5) && ValidRow(Dc7(), b)
    ensures ValidEntry(Dc7(), 5, b)
  {
  }

  lemma Dc7Entry6(b: nat)
    requires b < 7 && ValidRow(Dc7(), 6) && ValidRow(Dc7(), b)
    ensures ValidEntry(Dc7(), 6, b)
  {
  }

  lemma Dc7Entry(a: nat, b: nat)
    requires a < 7 && b < 7
    ensures ValidRow(Dc7(), a) && ValidRow(Dc7(), b) && ValidEntry(Dc7(), a, b)
  {
    Dc7Rows(a);
    Dc7Rows(b);
    match a
    case 0 => Dc7Entry0(b);
    case 1 => Dc7Entry1(b);
    case 2 => Dc7Entry2(b);
    case 3 => Dc7Entry3(b);
    case 4 => Dc7Entry4(b);
    case 5 => Dc7Entry5(b);
    case 6 => Dc7Entry6(b);
    case _ =>
  }

  lemma Dc7IsCover()
    ensures ValidCover(Dc7())
  {
    var c := Dc7();
    forall a: nat | a < 7 ensures ValidRow(c, a) { Dc7Rows(a); }
    forall a: nat, b: nat | a < 7 && b < 7 ensures ValidEntry(c, a, b) { Dc7Entry(a, b); }
  }

  // ---------------------------------------------------------------- the tables compare no more than they must

  /** Both positions have samples at distance `d`. */
  ghost predicate BothSamples(c: Cover, a: nat, b: nat, d: nat)
    requires c.period > 0
  {
    (a + d) % c.period in c.residues && (b + d) % c.period in c.residues
  }

  /** The depth of every entry is the smallest distance at which both positions have samples. */
  ghost predicate FewestCharacters(c: Cover)
    requires ValidCover(c)
  {
    forall a: nat, b: nat, d: nat | a < c.period && b < c.period && d <= Entry(c, a, b).depth ::
      BothSamples(c, a, b, d) <==> d == Entry(c, a, b).depth
  }

  lemma Dc3Depth(a: nat, b: nat, d: nat)
    requires a < 3 && b < 3 && ValidRow(Dc3(), a) && d <= Dc3().params[a][b].depth
    ensures BothSamples(Dc3(), a, b, d) <==> d == Dc3().params[a][b].depth
  {
  }

  lemma Dc3FewestCharacters()
    ensures ValidCover(Dc3()) && FewestCharacters(Dc3())
  {
    Dc3IsCover();
    forall a: nat, b: nat, d: nat | a < 3 && b < 3 && d <= Entry(Dc3(), a, b).depth
      ensures BothSamples(Dc3(), a, b, d) <==> d == Entry(Dc3(), a, b).depth {
      Dc3Rows(a);
      Dc3Depth(a, b, d);
    }
  }

  lemma Dc7Depth0(b: nat, d: nat)
    requires b < 7 && ValidRow(Dc7(), 0) && d <= Dc7().params[0][b].depth
    ensures BothSamples(Dc7(), 0, b, d) <==> d == Dc7().params[0][b].depth
  {
  }

  lemma Dc7Depth1(b: nat, d: nat)
    requires b < 7 && ValidRow(Dc7(), 1) && d <= Dc7().params[1][b].depth
    ensures BothSamples(Dc7(), 1, b, d) <==> d == Dc7().params[1][b].depth
  {
  }

  lemma Dc7Depth2(b: nat, d: nat)
    requires b < 7 && ValidRow(Dc7(), 2) && d <= Dc7().params[2][b].depth
    ensures BothSamples(Dc7(), 2, b, d) <==> d == Dc7().params[2][b].depth
  {
  }

  lemma Dc7Depth3(b: nat, d: nat)
    requires b < 7 && ValidRow(Dc7(), 3) && d <= Dc7().params[3][b].depth
    ensures BothSamples(Dc7(), 3, b, d) <==> d == Dc7().params[3][b].depth
  {
  }

  lemma Dc7Depth4(b: nat, d: nat)
    requires b < 7 && ValidRow(Dc7(), 4) && d <= Dc7().params[4][b].depth
    ensures BothSamples(Dc7(), 4, b, d) <==> d == Dc7().params[4][b].depth
  {
  }

  lemma Dc7Depth5(b: nat, d: nat)
    requires b < 7 && ValidRow(Dc7(), 5) && d <= Dc7().params[5][b].depth
    ensures BothSamples(Dc7(), 5, b, d) <==> d == Dc7().params[5][b].depth
  {
  }

  lemma Dc7Depth6(b: nat, d: nat)
    requires b < 7 && ValidRow(Dc7(), 6) && d <= Dc7().params[6][b].depth
    ensures BothSamples(Dc7(), 6, b, d) <==> d == Dc7().params[6][b].depth
  {
  }

  lemma Dc7Depth(a: nat, b: nat, d: nat)
    requires a < 7 && b < 7 && ValidRow(Dc7(), a) && d <= Dc7().params[a][b].depth
    ensures BothSamples(Dc7(), a, b, d) <==> d == Dc7().params[a][b].depth
  {
    match a
    case 0 => Dc7Depth0(b, d);
    case 1 => Dc7Depth1(b, d);
    case 2 => Dc7Depth2(b, d);
    case 3 => Dc7Depth3(b, d);
    case 4 => Dc7Depth4(b, d);
    case 5 => Dc7Depth5(b, d);
    case 6 => Dc7Depth6(b, d);
    case _ =>
  }

  lemma Dc7FewestCharacters()
    ensures ValidCover(Dc7()) && FewestCharacters(Dc7())
  {
    Dc7IsCover();
    forall a: nat, b: nat, d: nat | a < 7 && b < 7 && d <= Entry(Dc7(), a, b).depth
      ensures BothSamples(Dc7(), a, b, d) <==> d == Entry(Dc7(), a, b).depth {
      Dc7Rows(a);
      Dc7Depth(a, b, d);
    }
  }

  /** The sizes the programs compute for their parts and for the whole subproblem. */
  lemma SizesAsComputed(n: nat)
    ensures PartSize(Dc3(), n, 0) == n / 3 + (if n % 3 != 0 then 1 else 0)
    ensures SubproblemSize(Dc3(), n) == (n / 3) * 2 + (if n % 3 != 0 then 1 else 0)
    ensures PartSize(Dc7(), n, 0) == n / 7 + 1
    ensures PartSize(Dc7(), n, 1) == n / 7 + (if n % 7 >= 1 then 1 else 0)
    ensures PartSize(Dc7(), n, 2) == n / 7 + (if n % 7 >= 4 then 1 else 0)
    ensures SubproblemSize(Dc7(), n) == PartSize(Dc7(), n, 0) + PartSize(Dc7(), n, 1) + PartSize(Dc7(), n, 2)
  {
    assert PartStart(Dc3(), n, 1) == PartSize(Dc3(), n, 0);
    assert PartStart(Dc7(), n, 1) == PartSize(Dc7(), n, 0);
    assert PartStart(Dc7(), n, 2) == PartSize(Dc7(), n, 0) + PartSize(Dc7(), n, 1);
  }

  /** DC3 interleaves by the remainder of a place by the size of the first part, which is the place in its part. */
  lemma Dc3PlaceInPart(n: nat, x: nat)
    requires x < SubproblemSize(Dc3(), n)
    ensures PartSize(Dc3(), n, 0) > 0 && PlaceInPart(Dc3(), n, x, 0) == x % PartSize(Dc3(), n, 0)
  {
    SizesAsComputed(n);
    var first := PartSize(Dc3(), n, 0);
    assert PartStart(Dc3(), n, 1) == first;
    if x < first { DivisionUnique(x, 0, x, first); } else { DivisionUnique(x, 1, x - first, first); }
  }

  // ---------------------------------------------------------------- one level

  /** One level of the recursion, with `ranker` in place of the recursive call. */
  function Level(c: Cover, t: Text, ranker: Text -> seq<nat>): seq<nat>
    requires ValidCover(c) && |Samples(c, |t|)| >= 2
  {
    Merge(c, t, if NamesUnique(c, t) then RanksFromNames(c, t)
                else RanksFromRecursion(c, |t|, ranker(RecursionString(c, t))))
  }

  lemma TwoBlocksTwoSamples(c: Cover, n: nat)
    requires ValidCover(c) && TwoBlocks(c, n)
    ensures |Samples(c, n)| >= 2
  {
    AtLeastTwoBlocks(c, n);
    SampleNumbers(c, n, 1, 0, |c.residues|);
  }

  /** One level is right when its ranker is right on the recursion string, the samples that are compared are in order
      there, and no pair is blind. */
  lemma LevelIsSuffixArray(c: Cover, t: Text, ranker: Text -> seq<nat>)
    requires ValidCover(c) && TwoBlocks(c, |t|) && Sees(c, t) && |Samples(c, |t|)| >= 2
    requires NamesUnique(c, t)
          || (ComparedInOrder(c, t, RecursionString(c, t))
              && IsSuffixArray(RecursionString(c, t), ranker(RecursionString(c, t))))
    ensures IsSuffixArray(t, Level(c, t, ranker))
  {
    if NamesUnique(c, t) {
      UniqueNamesRank(c, t);
      MergeIsSuffixArray(c, t, RanksFromNames(c, t));
    } else {
      var sa := ranker(RecursionString(c, t));
      RecursionIsExact(c, t, RecursionString(c, t), sa);
      BoundMergeIsRight(c, t, RanksFromRecursion(c, |t|, sa));
    }
  }

  /** When the ends of its parts are in order, the recursion string orders the samples that are compared. */
  lemma EndsInOrderCompared(c: Cover, t: Text)
    requires ValidCover(c) && |Samples(c, |t|)| >= 2 && EndsInOrder(c, t, RecursionString(c, t))
    ensures ComparedInOrder(c, t, RecursionString(c, t))
  {
    RecursionStringNames(c, t);
    RecursionOrderIsExact(c, t, RecursionString(c, t));
    OrderedIsCompared(c, t, RecursionString(c, t));
  }

  /** One level is right on every long enough text whose characters are above the padding value. */
  lemma LevelWithoutPadding(c: Cover, t: Text, ranker: Text -> seq<nat>)
    requires ValidCover(c) && TwoBlocks(c, |t|) && |Samples(c, |t|)| >= 2
    requires forall i | 0 <= i < |t| :: t[i] > 0
    requires IsSuffixArray(RecursionString(c, t), ranker(RecursionString(c, t)))
    ensures IsSuffixArray(t, Level(c, t, ranker))
  {
    NoPaddingSeparates(c, t);
    SeparatedEnds(c, t, RecursionString(c, t));
    EndsInOrderCompared(c, t);
    ClearEndSees(c, t);
    LevelIsSuffixArray(c, t, ranker);
  }

  // ---------------------------------------------------------------- the whole recursion

  /** The recursive subproblem is smaller than the text. */
  lemma SubproblemShrinks(c: Cover, t: Text)
    requires c == Dc3() || c == Dc7()
    requires ValidCover(c) && TwoBlocks(c, |t|)
    ensures |Samples(c, |t|)| < |t|
  {
    SubproblemHoldsSamples(c, |t|);
    SizesAsComputed(|t|);
  }

  /** Every level of the recursion down to unique names has two blocks, no blind pair, and the
      samples that are compared in order. */
  ghost predicate Safe(c: Cover, t: Text)
    requires ValidCover(c) && (c == Dc3() || c == Dc7())
    decreases |t|
  {
    && TwoBlocks(c, |t|) && Sees(c, t)
    && (TwoBlocksTwoSamples(c, |t|);
        SubproblemShrinks(c, t);
        NamesUnique(c, t) || (ComparedInOrder(c, t, RecursionString(c, t)) && Safe(c, RecursionString(c, t))))
  }

  /** DC3Recursive and DC7Recursive produce the suffix array of every safe text. */
  function DcRecursive(c: Cover, t: Text): (sa: seq<nat>)
    requires ValidCover(c) && (c == Dc3() || c == Dc7()) && Safe(c, t)
    ensures IsSuffixArray(t, sa)
    decreases |t|
  {
    TwoBlocksTwoSamples(c, |t|);
    SubproblemShrinks(c, t);
    if NamesUnique(c, t) then
      UniqueNamesRank(c, t);
      MergeIsSuffixArray(c, t, RanksFromNames(c, t));
      Merge(c, t, RanksFromNames(c, t))
    else
      var sa := DcRecursive(c, RecursionString(c, t));
      RecursionIsExact(c, t, RecursionString(c, t), sa);
      BoundMergeIsRight(c, t, RanksFromRecursion(c, |t|, sa));
      Merge(c, t, RanksFromRecursion(c, |t|, sa))
  }

  // ---------------------------------------------------------------- texts the recursion loses

  /** Two samples `d` positions apart in equal characters share their tuple. */
  lemma {:induction false} EqualCharactersAgree(t: Text, i: nat, j: nat, h: nat)
    requires i + h <= |t| && j + h <= |t| && forall x, y | 0 <= x < |t| && 0 <= y < |t| :: t[x] == t[y]
    ensures Agree(t, i, j, h)
    decreases h
  {
    if h > 0 { EqualCharactersAgree(t, i + 1, j + 1, h - 1); }
  }

  /** The suffix array of equal characters lists the positions backwards. */
  lemma EqualCharactersSorted(t: Text, sa: seq<nat>)
    requires forall x, y | 0 <= x < |t| && 0 <= y < |t| :: t[x] == t[y]
    requires |sa| == |t| && forall k | 0 <= k < |t| :: sa[k] == |t| - 1 - k
    ensures IsSuffixArray(t, sa)
  {
    forall a, b | 0 <= a < b < |t| ensures SufLess(t, sa[a], sa[b]) {
      EqualCharactersAgree(t, sa[a], sa[b], |t| - sa[a]);
      ShorterIsSmaller(t, sa[a], sa[b], |t| - sa[a]);
    }
  }

  /** What a level does with a recursive call that returns nothing. */
  lemma NothingFromRecursion(c: Cover, t: Text, ranker: Text -> seq<nat>)
    requires ValidCover(c) && |Samples(c, |t|)| >= 2 && !NamesUnique(c, t) && ranker(RecursionString(c, t)) == []
    ensures Level(c, t, ranker) == Merge(c, t, [])
  {
    assert RanksFromRecursion(c, |t|, []) == [];
  }

  /** Positions 1 and 2 in DC3, 0 and 1 in DC7: their fragments compare no characters. */
  lemma TablesCompareNothing(c: Cover)
    requires (c == Dc3() || c == Dc7()) && ValidCover(c)
    ensures ComparesNothing(c, c.residues[0], c.residues[1]) && c.residues[1] < c.period + c.residues[0]
  {
    assert ValidRow(c, 0) && ValidRow(c, 1) && ValidRow(c, 2);
  }

  /** Without ranks, DC3 and DC7 are not bound to sort any text but the empty one. */
  lemma NeverBoundWithoutRanks(c: Cover, t: Text)
    requires (c == Dc3() || c == Dc7()) && ValidCover(c)
    ensures Bound(c, t, []) <==> t == []
  {
    RanklessIsExact(c, t);
    if t != [] && ReachesEnd(c, |t|) {
      TablesCompareNothing(c);
      NothingComparedUnbound(c, t, c.residues[0], c.residues[1]);
    }
  }

  ghost predicate EqualCharacters(t: Text) { forall x, y | 0 <= x < |t| && 0 <= y < |t| :: t[x] == t[y] }

  lemma Dc3FiveRecurses(t: Text)
    requires |t| == 5 && EqualCharacters(t)
    ensures ValidCover(Dc3()) && |Samples(Dc3(), |t|)| == 3 && !NamesUnique(Dc3(), t)
  {
    var c := Dc3();
    Dc3IsCover();
    SubproblemHoldsSamples(c, 5);
    assert PartStart(c, 5, 1) == 2 && PartStart(c, 5, 2) == 3;
    EqualCharactersAgree(t, 1, 2, 3);
    assert SamplePosition(c, 0) == 1 && SamplePosition(c, 1) == 2;
    RecursionEnds(c, t);
    assert SameTuple(c, t, 0, 1);
  }

  lemma FiveUndecided(t: Text, i: nat, j: nat)
    requires |t| == 5 && EqualCharacters(t) && i < 5 && j < 5 && ValidCover(Dc3())
    ensures Agree(t, i, j, Entry(Dc3(), i, j).depth)
  {
    var h := Entry(Dc3(), i, j).depth;
    assert i % 3 == (if i < 3 then i else i - 3) && j % 3 == (if j < 3 then j else j - 3);
    assert i + h <= 5 && j + h <= 5;
    EqualCharactersAgree(t, i, j, h);
  }

  /** DC3 on five equal characters recurses on three names, for which it returns nothing (NoFragments).  Then
      all ranks are zero, no fragment is less than another, and the sort may return any order. */
  lemma Dc3LosesFiveEqual(t: Text, ranker: Text -> seq<nat>)
    requires |t| == 5 && EqualCharacters(t) && forall s: Text | |s| == 3 :: ranker(s) == []
    ensures ValidCover(Dc3()) && |Samples(Dc3(), |t|)| == 3 && Level(Dc3(), t, ranker) == Merge(Dc3(), t, [])
    ensures NoneTold(Dc3(), t, []) && AllowsWrongOrder(Dc3(), t, []) && !Bound(Dc3(), t, [])
  {
    Dc3FiveRecurses(t);
    NothingFromRecursion(Dc3(), t, ranker);
    Dc3FiveNoneTold(t);
    Dc3FiveWrong(t);
    WrongOrderUnbound(Dc3(), t, []);
  }

  lemma Dc3FiveNoneTold(t: Text)
    requires |t| == 5 && EqualCharacters(t) && ValidCover(Dc3())
    ensures NoneTold(Dc3(), t, [])
  {
    forall i: nat, j: nat | i < |t| && j < |t| ensures !Told(Dc3(), t, [], i, j) {
      FiveUndecided(t, i, j);
      RanklessOrder(Dc3(), t, i, j);
    }
  }

  lemma Dc3FiveWrong(t: Text)
    requires |t| == 5 && EqualCharacters(t) && ValidCover(Dc3())
    ensures AllowsWrongOrder(Dc3(), t, [])
  {
    var sa := [4, 3, 2, 1, 0];
    EqualCharactersSorted(t, sa);
    FiveUndecided(t, 1, 0);
    assert SameCharacters(Dc3(), t, sa[3], sa[4]);
    RanklessWrongOrder(Dc3(), t, sa);
  }

  lemma Dc7EightRecurses(t: Text)
    requires |t| == 8 && EqualCharacters(t)
    ensures ValidCover(Dc7()) && |Samples(Dc7(), |t|)| == 5 && !NamesUnique(Dc7(), t)
  {
    var c := Dc7();
    Dc7IsCover();
    SubproblemHoldsSamples(c, 8);
    assert PartStart(c, 8, 1) == 2 && PartStart(c, 8, 2) == 4 && PartStart(c, 8, 3) == 5;
    EqualCharactersAgree(t, 0, 1, 7);
    assert SamplePosition(c, 0) == 0 && SamplePosition(c, 1) == 1;
    RecursionEnds(c, t);
    assert SameTuple(c, t, 0, 1);
  }

  /** DC7 on eight equal characters recurses on five names, for which it returns nothing (NoFragments).  Then
      all ranks are zero, and the sort may return an order that is not the suffix array. */
  lemma Dc7LosesEightEqual(t: Text, ranker: Text -> seq<nat>)
    requires |t| == 8 && EqualCharacters(t) && forall s: Text | |s| == 5 :: ranker(s) == []
    ensures ValidCover(Dc7()) && |Samples(Dc7(), |t|)| == 5 && Level(Dc7(), t, ranker) == Merge(Dc7(), t, [])
    ensures AllowsWrongOrder(Dc7(), t, []) && !Bound(Dc7(), t, [])
  {
    Dc7EightRecurses(t);
    NothingFromRecursion(Dc7(), t, ranker);
    Dc7EightWrong(t);
    WrongOrderUnbound(Dc7(), t, []);
  }

  lemma Dc7EightWrong(t: Text)
    requires |t| == 8 && EqualCharacters(t) && ValidCover(Dc7())
    ensures AllowsWrongOrder(Dc7(), t, [])
  {
    var sa := [7, 6, 5, 4, 3, 2, 1, 0];
    EqualCharactersSorted(t, sa);
    assert Entry(Dc7(), 1, 0).depth == 0;
    assert SameCharacters(Dc7(), t, sa[6], sa[7]);
    RanklessWrongOrder(Dc7(), t, sa);
  }

  // ---------------------------------------------------------------- ends of parts that share a tuple

  ghost function SharedEnd(): Text { [1, 1, 1, 1, 0, 1, 1, 1, 1] }

  lemma SharedEndParts(c: Cover, n: nat)
    requires c == Dc3() && n == 9
    ensures ValidCover(c) && |Samples(c, n)| == 6
    ensures PartSize(c, n, 0) == 3 && PartSize(c, n, 1) == 3
    ensures PartStart(c, n, 0) == 0 && PartStart(c, n, 1) == 3
  {
    Dc3IsCover();
    SubproblemHoldsSamples(c, n);
    assert PartStart(c, n, 1) == 3 && PartStart(c, n, 2) == 6;
  }

  lemma SharedEndText(t: Text)
    requires t == SharedEnd()
    ensures Agree(t, 7, 2, 3) && !Agree(t, 7, 1, 3) && !Agree(t, 7, 4, 3) && !Agree(t, 7, 5, 3) && !Agree(t, 7, 8, 3)
    ensures !Agree(t, 2, 5, 3) && SufLess(t, 2, 5)
  {
  }

  /** Sample 4, at position 7, ends the first part; of the others only sample 1, at position 2, has its tuple. */
  lemma SharedEndSample(c: Cover, t: Text, m: nat, m': nat)
    requires c == Dc3() && t == SharedEnd() && ValidCover(c) && m < 6 && m' < 6 && m != m' && EndsPart(c, |t|, m)
    ensures m == 4 && (SameTuple(c, t, m, m') <==> m' == 1)
  {
    SharedEndParts(c, |t|);
    SharedEndText(t);
    assert PartOf(c, m) == 0 && BlockOf(c, m) == 2;
    assert SamplePosition(c, 0) == 1 && SamplePosition(c, 1) == 2 && SamplePosition(c, 2) == 4;
    assert SamplePosition(c, 3) == 5 && SamplePosition(c, 4) == 7 && SamplePosition(c, 5) == 8;
  }

  lemma SharedEndNext(c: Cover, t: Text, s: Text)
    requires c == Dc3() && t == SharedEnd() && ValidCover(c) && |Samples(c, |t|)| == 6 && s == RecursionString(c, t)
    ensures EndFits(c, t, s, 4, 1)
  {
    SharedEndParts(c, |t|);
    SharedEndText(t);
    RecursionStringNames(c, t);
    NameOrderAt(c, t, s, 0, 1, 1, 1);
    assert EndInOrder(c, t, s, 2, 0, 0, 1);
  }

  /** On 1 1 1 1 0 1 1 1 1 the end of the first part shares its tuple, and the ends are in order all the same. */
  lemma SharedEndInOrder(c: Cover, t: Text)
    requires c == Dc3() && t == SharedEnd()
    ensures ValidCover(c) && |Samples(c, |t|)| == 6
    ensures !Separated(c, t) && EndsInOrder(c, t, RecursionString(c, t))
  {
    SharedEndParts(c, |t|);
    SharedEndShares(c, t);
    SharedEndsFit(c, t, RecursionString(c, t));
  }

  lemma SharedEndsFit(c: Cover, t: Text, s: Text)
    requires t == SharedEnd() && c == Dc3() && ValidCover(c) && |Samples(c, |t|)| == 6 && s == RecursionString(c, t)
    ensures EndsInOrder(c, t, s)
  {
    forall m: nat, m': nat | m < |Samples(c, |t|)| && m' < |Samples(c, |t|)| && m != m' && EndsPart(c, |t|, m)
      ensures EndFits(c, t, s, m, m') {
      SharedEndFits(c, t, s, m, m');
    }
  }

  lemma SharedEndShares(c: Cover, t: Text)
    requires c == Dc3() && t == SharedEnd() && ValidCover(c) && |Samples(c, |t|)| == 6
    ensures !Separated(c, t)
  {
    SharedEndParts(c, |t|);
    assert EndsPart(c, |t|, 4);
    SharedEndSample(c, t, 4, 1);
  }

  lemma SharedEndFits(c: Cover, t: Text, s: Text, m: nat, m': nat)
    requires c == Dc3() && t == SharedEnd() && ValidCover(c) && |Samples(c, |t|)| == 6 && s == RecursionString(c, t)
    requires m < 6 && m' < 6 && m != m' && EndsPart(c, |t|, m)
    ensures EndFits(c, t, s, m, m')
  {
    SharedEndSample(c, t, m, m');
    SharedEndNext(c, t, s);
  }

  // ---------------------------------------------------------------- names that collide with the padding

  /** A text above the padding value, and the string DC3 recurses on for it. */
  ghost function Collided(): Text { [1, 2, 1, 1, 2, 1, 1, 2, 1, 1, 2] }

  ghost function Collision(): Text { [2, 2, 2, 1, 0, 0, 0] }

  lemma CollidedParts(c: Cover, n: nat)
    requires c == Dc3() && n == 11
    ensures ValidCover(c) && |Samples(c, n)| == 7
    ensures PartSize(c, n, 0) == 4 && PartSize(c, n, 1) == 3
    ensures PartStart(c, n, 0) == 0 && PartStart(c, n, 1) == 4
  {
    Dc3IsCover();
    SubproblemHoldsSamples(c, n);
    assert PartStart(c, n, 1) == 4 && PartStart(c, n, 2) == 7;
  }

  lemma CollidedWindows(t: Text)
    requires t == Collided()
    ensures Agree(t, 1, 4, 3) && Agree(t, 4, 7, 3) && Agree(t, 2, 5, 3) && Agree(t, 5, 8, 3)
    ensures !Agree(t, 10, 1, 3) && SufLess(t, 10, 1) && !Agree(t, 2, 10, 3) && SufLess(t, 2, 10)
  {
  }

  lemma CollidedNames(c: Cover, t: Text, s: Text)
    requires c == Dc3() && t == Collided() && ValidCover(c) && |Samples(c, |t|)| >= 2 && s == RecursionString(c, t)
    ensures |s| == 7 && s[0] == s[1] == s[2] && s[3] < s[0] && s[4] == s[5] == s[6] && s[4] < s[3]
  {
    CollidedParts(c, |t|);
    CollidedWindows(t);
    RecursionStringNames(c, t);
    SameNames(c, t, s, 0, 0, 1, 0);
    SameNames(c, t, s, 1, 0, 2, 0);
    SameNames(c, t, s, 0, 1, 1, 1);
    SameNames(c, t, s, 1, 1, 2, 1);
    NameOrderAt(c, t, s, 3, 0, 0, 0);
    NameOrderAt(c, t, s, 0, 1, 3, 0);
  }

  /** Three values without gaps are 0, 1 and 2. */
  lemma ThreeValues(s: Text)
    requires |s| == 7 && s[0] == s[1] == s[2] && s[3] < s[0] && s[4] == s[5] == s[6] && s[4] < s[3]
    requires NoGaps(s)
    ensures s == Collision()
  {
    assert forall x | x in s :: x == s[0] || x == s[3] || x == s[4];
    assert 0 in s && 1 in s && 2 in s;
  }

  /** DC3 on 1 2 1 1 2 1 1 2 1 1 2 recurses on 2 2 2 1 0 0 0. */
  lemma CollidedRecursesOnCollision(c: Cover, t: Text)
    requires c == Dc3() && t == Collided()
    ensures ValidCover(c) && |Samples(c, |t|)| >= 2 && RecursionString(c, t) == Collision()
  {
    CollidedParts(c, |t|);
    CollidedString(c, t, RecursionString(c, t));
  }

  lemma CollidedString(c: Cover, t: Text, s: Text)
    requires c == Dc3() && t == Collided() && ValidCover(c) && |Samples(c, |t|)| >= 2 && s == RecursionString(c, t)
    ensures s == Collision()
  {
    CollidedParts(c, |t|);
    CollidedNames(c, t, s);
    FirstNameNoGaps(c, t, s);
    ThreeValues(s);
  }

  lemma CollisionParts(c: Cover, n: nat)
    requires c == Dc3() && n == 7
    ensures ValidCover(c) && |Samples(c, n)| == 5
    ensures PartSize(c, n, 0) == 3 && PartSize(c, n, 1) == 2
    ensures PartStart(c, n, 0) == 0 && PartStart(c, n, 1) == 3
  {
    Dc3IsCover();
    SubproblemHoldsSamples(c, n);
    assert PartStart(c, n, 1) == 3 && PartStart(c, n, 2) == 5;
  }

  lemma CollisionText(t: Text)
    requires t == Collision()
    ensures !Agree(t, 4, 2, 3) && SufLess(t, 4, 2)
    ensures Agree(t, 5, 7, 3) && Agree(t, 5, 4, 3) && SufLess(t, 7, 5) && !SufLess(t, 5, 7)
  {
  }

  lemma LastOfTwo(s: Text, x: nat)
    requires |s| == 5 && x < 4 && s[4] == s[x]
    ensures SufLess(s, 4, x)
  {
    assert SufLess(s, 5, x + 1);
  }

  /** There, the end of the text and position 5 have the padding's tuple: the recursion string puts position 5,
      at its place 4, before the empty suffix, at its place 2, so no ranker of that string ranks them right. */
  lemma NamesCollideWithPadding(c: Cover, t: Text)
    requires c == Dc3() && t == Collision()
    ensures ValidCover(c) && |Samples(c, |t|)| == 5
    ensures Place(c, |t|, 1, 1) == 4 && Position(c, 1, 1) == 5 && Place(c, |t|, 2, 0) == 2 && Position(c, 2, 0) == 7
    ensures SufLess(RecursionString(c, t), 4, 2) && SufLess(t, 7, 5) && !SufLess(t, 5, 7)
  {
    CollisionParts(c, |t|);
    CollisionText(t);
    CollisionPlaces(c, |t|);
    CollisionString(c, t, RecursionString(c, t));
  }

  lemma CollisionPlaces(c: Cover, n: nat)
    requires c == Dc3() && n == 7
    ensures Place(c, n, 1, 1) == 4 && Position(c, 1, 1) == 5 && Place(c, n, 2, 0) == 2 && Position(c, 2, 0) == 7
    ensures Place(c, n, 1, 0) == 1 && Position(c, 1, 0) == 4
  {
    CollisionParts(c, n);
  }

  lemma CollisionString(c: Cover, t: Text, s: Text)
    requires c == Dc3() && t == Collision() && ValidCover(c) && |Samples(c, |t|)| == 5 && s == RecursionString(c, t)
    ensures SufLess(s, 4, 2) && SufLess(s, 4, 1)
  {
    CollisionParts(c, |t|);
    CollisionText(t);
    CollisionPlaces(c, |t|);
    RecursionStringNames(c, t);
    SameNames(c, t, s, 1, 1, 2, 0);
    SameNames(c, t, s, 1, 1, 1, 0);
    LastOfTwo(s, 2);
    LastOfTwo(s, 1);
  }

  lemma CollisionSample(c: Cover, n: nat, b: nat, k: nat, m: nat)
    requires c == Dc3() && n == 7 && k < 2 && b < PartSize(c, n, k) && m == b * 2 + k
    ensures m < |Samples(c, n)| && SamplePosition(c, m) == Position(c, b, k)
         && SamplePlace(c, n, m) == Place(c, n, b, k)
  {
    Dc3IsCover();
    var m' := SampleOf(c, n, b, k);
  }

  /** How the samples at positions 4, 5 and 7, numbers 2, 3 and 4, are ranked there. */
  ghost predicate CollisionRanked(r: seq<nat>) { |r| == 5 && r[3] < r[4] && r[3] < r[2] && r[4] > 0 }

  /** Whatever suffix array of the recursion string the recursive call returns, the sample at position 5 is ranked
      before the end of the text, and the ranks are wrong. */
  lemma CollisionRanksWrong(c: Cover, t: Text, sa: seq<nat>)
    requires c == Dc3() && t == Collision() && ValidCover(c) && |Samples(c, |t|)| >= 2
    requires IsSuffixArray(RecursionString(c, t), sa)
    ensures var r := RanksFromRecursion(c, |t|, sa); CollisionRanked(r) && !RanksSamples(c, t, r)
  {
    CollisionParts(c, |t|);
    CollisionString(c, t, RecursionString(c, t));
    RecursionRanksBy(c, t, RecursionString(c, t), sa);
    CollisionRanks(c, t, RecursionString(c, t), RanksFromRecursion(c, |t|, sa));
    CollisionMisranked(c, t, RanksFromRecursion(c, |t|, sa));
  }

  lemma CollisionMisranked(c: Cover, t: Text, r: seq<nat>)
    requires c == Dc3() && t == Collision() && ValidCover(c) && CollisionRanked(r)
    ensures !RanksSamples(c, t, r)
  {
    CollisionNumbers(c, |t|);
    CollisionText(t);
    assert !RankInOrder(c, t, r, 3, 4);
  }

  lemma CollisionNumbers(c: Cover, n: nat)
    requires c == Dc3() && n == 7 && ValidCover(c)
    ensures |Samples(c, n)| == 5
    ensures SamplePlace(c, n, 3) == 4 && SamplePlace(c, n, 4) == 2 && SamplePlace(c, n, 2) == 1
    ensures SamplePosition(c, 3) == 5 && SamplePosition(c, 4) == 7
  {
    CollisionParts(c, n);
    CollisionPlaces(c, n);
    CollisionSample(c, n, 1, 1, 3);
    CollisionSample(c, n, 2, 0, 4);
    CollisionSample(c, n, 1, 0, 2);
  }

  lemma CollisionRanks(c: Cover, t: Text, s: Text, r: seq<nat>)
    requires c == Dc3() && |t| == 7 && ValidCover(c) && RanksBy(c, t, s, r)
    requires SufLess(s, 4, 2) && SufLess(s, 4, 1)
    ensures CollisionRanked(r)
  {
    CollisionNumbers(c, |t|);
    assert RankBy(c, t, s, r, 3, 4) && RankBy(c, t, s, r, 3, 2);
  }

  /** With these ranks the comparison goes round in a circle: 4 before 6 before 5 before 4. */
  lemma CollisionCycle(c: Cover, t: Text, r: seq<nat>)
    requires c == Dc3() && t == Collision() && ValidCover(c) && CollisionRanked(r)
    ensures Told(c, t, r, 4, 6) && Told(c, t, r, 6, 5) && Told(c, t, r, 5, 4) && !SufLess(t, 4, 6)
  {
    CollisionTold(c, t, r, 4, 6);
    CollisionTold(c, t, r, 6, 5);
    CollisionTold(c, t, r, 5, 4);
    assert Agree(t, 4, 6, 1) && Agree(t, 6, 5, 2) && Agree(t, 5, 4, 0);
    CollisionFields46(c, t, r);
    CollisionFields65(c, t, r);
    CollisionFields54(c, t, r);
  }

  lemma CollisionTold(c: Cover, t: Text, r: seq<nat>, i: nat, j: nat)
    requires c == Dc3() && ValidCover(c) && t == Collision()
    ensures var p := Entry(c, i, j);
            Agree(t, i, j, p.depth) ==>
            (Told(c, t, r, i, j)
             <==> RankAt(FragmentFor(c, t, r, i), p.first) < RankAt(FragmentFor(c, t, r, j), p.second))
  {
    ParamsSized(c);
    LessIsCompare(c, t, r, i, j);
    FragmentsCompare(c, t, r, i, j);
  }

  lemma CollisionFields46(c: Cover, t: Text, r: seq<nat>)
    requires c == Dc3() && t == Collision() && ValidCover(c) && |r| == 5
    ensures Entry(c, 4, 6) == Params(1, 1, 0)
    ensures RankAt(FragmentFor(c, t, r, 4), 1) == r[3] && RankAt(FragmentFor(c, t, r, 6), 0) == r[4]
  {
    var b, k := FragmentRank(c, t, r, 4, 1, 1, 1);
    RankIs(c, r, 1, 1, 3);
    var b', k' := FragmentRank(c, t, r, 6, 0, 0, 1);
    RankIs(c, r, 2, 0, 4);
  }

  lemma CollisionFields65(c: Cover, t: Text, r: seq<nat>)
    requires c == Dc3() && t == Collision() && ValidCover(c) && |r| == 5
    ensures Entry(c, 6, 5) == Params(2, 1, 1)
    ensures RankAt(FragmentFor(c, t, r, 6), 1) == 0 && RankAt(FragmentFor(c, t, r, 5), 1) == r[4]
  {
    var b, k := FragmentRank(c, t, r, 6, 0, 1, 2);
    var b', k' := FragmentRank(c, t, r, 5, 2, 1, 2);
    RankIs(c, r, 2, 0, 4);
  }

  lemma CollisionFields54(c: Cover, t: Text, r: seq<nat>)
    requires c == Dc3() && t == Collision() && ValidCover(c) && |r| == 5
    ensures Entry(c, 5, 4) == Params(0, 0, 0)
    ensures RankAt(FragmentFor(c, t, r, 5), 0) == r[3] && RankAt(FragmentFor(c, t, r, 4), 0) == r[2]
  {
    var b, k := FragmentRank(c, t, r, 5, 2, 0, 0);
    RankIs(c, r, 1, 1, 3);
    var b', k' := FragmentRank(c, t, r, 4, 1, 0, 0);
    RankIs(c, r, 1, 0, 2);
  }

  lemma CollisionComplete(c: Cover, t: Text, r: seq<nat>)
    requires c == Dc3() && t == Collision() && ValidCover(c) && |r| == 5
    ensures Complete(c, t, r)
  {
    CollisionParts(c, |t|);
    RanksComplete(c, t, r);
  }

  /** No order of the fragments is sorted by that comparison, it is no strict weak order, and the sort is not bound to
      give the suffix array. */
  lemma CollisionIsCyclic(c: Cover, t: Text, sa: seq<nat>)
    requires c == Dc3() && t == Collision() && ValidCover(c) && |Samples(c, |t|)| >= 2
    requires IsSuffixArray(RecursionString(c, t), sa)
    ensures var r := RanksFromRecursion(c, |t|, sa);
            && Complete(c, t, r) && !WeaklyOrdered(c, t, r) && !Bound(c, t, r)
            && Told(c, t, r, 4, 6) && Told(c, t, r, 6, 5) && Told(c, t, r, 5, 4)
            && forall s: seq<Fragment> :: !Arranges(c, t, r, s)
  {
    var r := RanksFromRecursion(c, |t|, sa);
    CollisionRanksWrong(c, t, sa);
    CollisionCycle(c, t, r);
    CollisionComplete(c, t, r);
    CycleUnordered(c, t, r, 4, 6, 5);
    BoundIsExact(c, t, r);
  }
}
