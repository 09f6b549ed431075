/**
 Sorted arrangements of the fragments: those in which no fragment is less than an earlier one.  A sort gives one of
 them only when the comparison is a strict weak order; what it is bound to give in general is the subject of
 MergeOutcomes.
 */
module Arrangements {
  import opened Arithmetic
  import opened Lists
  import opened Suffixes
  import opened DifferenceCover
  import opened RecursionOrder
  import opened SampleRanks
  import opened FragmentMerge

  /** The comparison puts the fragment of position `i` before that of position `j`. */
  ghost predicate Told(c: Cover, t: Text, r: seq<nat>, i: nat, j: nat)
    requires ValidCover(c)
  {
    ParamsSized(c);
    FragmentLess(c)(FragmentFor(c, t, r, i), FragmentFor(c, t, r, j))
  }

  /** The comparison puts no fragment before another. */
  ghost predicate NoneTold(c: Cover, t: Text, r: seq<nat>)
    requires ValidCover(c)
  {
    forall i: nat, j: nat | i < |t| && j < |t| :: !Told(c, t, r, i, j)
  }

  ghost predicate Arranges(c: Cover, t: Text, r: seq<nat>, s: seq<Fragment>)
    requires ValidCover(c)
  {
    ParamsSized(c);
    multiset(s) == multiset(Fragments(c, t, r)) && SortedBy(s, FragmentLess(c))
  }

  ghost function Order(s: seq<Fragment>): (r: seq<nat>)
    ensures |r| == |s|
  {
    Map<Fragment, nat>(FragmentIndex, s)
  }

  /** Some sorted arrangement does not give the suffix array. */
  ghost predicate AllowsWrongOrder(c: Cover, t: Text, r: seq<nat>)
    requires ValidCover(c)
  {
    exists s: seq<Fragment> :: Arranges(c, t, r, s) && !IsSuffixArray(t, Order(s))
  }

  /** No sorted arrangement gives the suffix array. */
  ghost predicate ForbidsSuffixArray(c: Cover, t: Text, r: seq<nat>)
    requires ValidCover(c)
  {
    forall s: seq<Fragment> | Arranges(c, t, r, s) :: !IsSuffixArray(t, Order(s))
  }

  /** There are sorted arrangements, and all of them give the suffix array. */
  ghost predicate ForcesSuffixArray(c: Cover, t: Text, r: seq<nat>)
    requires ValidCover(c)
  {
    (exists s: seq<Fragment> :: Arranges(c, t, r, s)) && !AllowsWrongOrder(c, t, r)
  }

  /** The fragments are those of all positions. */
  ghost predicate Complete(c: Cover, t: Text, r: seq<nat>)
    requires ValidCover(c)
  {
    Holds(c, t, r, Fragments(c, t, r), _ => true)
  }

  /** An order of the positions in which no fragment is less than an earlier one. */
  ghost predicate Possible(c: Cover, t: Text, r: seq<nat>, order: seq<nat>)
    requires ValidCover(c)
  {
    IsPerm(order, |t|) && forall x: nat, y: nat | x < y < |order| :: !Told(c, t, r, order[y], order[x])
  }

  // ---------------------------------------------------------------- arrangements are possible orders

  /** The fragments in the order of a list of positions. */
  ghost function InOrder(c: Cover, t: Text, r: seq<nat>, order: seq<nat>): (s: seq<Fragment>)
    requires ValidCover(c)
    ensures |s| == |order| && forall k | 0 <= k < |s| :: s[k] == FragmentFor(c, t, r, order[k])
  {
    seq(|order|, k requires 0 <= k < |order| => FragmentFor(c, t, r, order[k]))
  }

  lemma InOrderRearranges(c: Cover, t: Text, r: seq<nat>, order: seq<nat>)
    requires ValidCover(c) && Complete(c, t, r) && IsPerm(order, |t|)
    ensures multiset(InOrder(c, t, r, order)) == multiset(Fragments(c, t, r))
  {
    var z := Fragments(c, t, r);
    IndexesArePerm(c, t, r, z);
    var p, back := Order(z), Inverse(order, |t|);
    var f := seq<nat>(|z|, k requires 0 <= k < |z| => back[p[k]]);
    ComposedPerm(back, p, |t|, f);
    forall k | 0 <= k < |z| ensures InOrder(c, t, r, order)[f[k]] == z[k] {
      assert Proper(c, t, r, z[k]) && order[back[p[k]]] == p[k];
    }
    RearrangedMultiset(z, InOrder(c, t, r, order), f);
  }

  lemma PossibleIsArranged(c: Cover, t: Text, r: seq<nat>, order: seq<nat>)
    requires ValidCover(c) && Complete(c, t, r) && Possible(c, t, r, order)
    ensures Arranges(c, t, r, InOrder(c, t, r, order)) && Order(InOrder(c, t, r, order)) == order
  {
    var s := InOrder(c, t, r, order);
    InOrderRearranges(c, t, r, order);
    ParamsSized(c);
    forall x, y | 0 <= x < y < |s| ensures !FragmentLess(c)(s[y], s[x]) {
      assert !Told(c, t, r, order[y], order[x]);
    }
    assert Order(s) == order;
  }

  lemma ArrangedIsPossible(c: Cover, t: Text, r: seq<nat>, s: seq<Fragment>)
    requires ValidCover(c) && Complete(c, t, r) && Arranges(c, t, r, s)
    ensures Possible(c, t, r, Order(s))
  {
    var z := Fragments(c, t, r);
    IndexesArePerm(c, t, r, z);
    MapMultiset<Fragment, nat>(FragmentIndex, z, s);
    PermOfMultiset(Order(z), Order(s), |t|);
    SameItems(z, s);
    forall x: nat, y: nat | x < y < |s| ensures !Told(c, t, r, Order(s)[y], Order(s)[x]) {
      assert Proper(c, t, r, s[x]) && Proper(c, t, r, s[y]);
    }
  }

  // ---------------------------------------------------------------- when the order is forced

  /** The comparison puts no fragment before that of a smaller suffix. */
  ghost predicate NoneMisplaced(c: Cover, t: Text, r: seq<nat>)
    requires ValidCover(c)
  {
    forall i: nat, j: nat | i < |t| && j < |t| && Told(c, t, r, i, j) :: SufLess(t, i, j)
  }

  /** The comparison tells neighbours of the suffix array apart. */
  ghost predicate NeighboursTold(c: Cover, t: Text, r: seq<nat>, sa: seq<nat>)
    requires ValidCover(c)
  {
    forall k: nat | k + 1 < |sa| :: NeighbourTold(c, t, r, sa, k)
  }

  ghost predicate NeighbourTold(c: Cover, t: Text, r: seq<nat>, sa: seq<nat>, k: nat)
    requires ValidCover(c) && k + 1 < |sa|
  {
    Told(c, t, r, sa[k], sa[k + 1])
  }

  lemma SuffixArrayPossible(c: Cover, t: Text, r: seq<nat>, sa: seq<nat>)
    requires ValidCover(c) && IsSuffixArray(t, sa)
    ensures NoneMisplaced(c, t, r) <==> Possible(c, t, r, sa)
  {
    if NoneMisplaced(c, t, r) {
      forall x: nat, y: nat | x < y < |sa| ensures !Told(c, t, r, sa[y], sa[x]) { RankOrder(t, sa, y, x); }
    }
    if Possible(c, t, r, sa) {
      forall i: nat, j: nat | i < |t| && j < |t| && Told(c, t, r, i, j) ensures SufLess(t, i, j) {
        ToldInOrder(c, t, r, sa, i, j);
      }
    }
  }

  lemma ToldEarlier(c: Cover, t: Text, r: seq<nat>, order: seq<nat>, x: nat, y: nat)
    requires ValidCover(c) && Possible(c, t, r, order) && x < |order| && y < |order|
    requires Told(c, t, r, order[x], order[y])
    ensures x < y
  {
    ParamsSized(c);
    LessIsCompare(c, t, r, order[x], order[x]);
  }

  lemma ToldInOrder(c: Cover, t: Text, r: seq<nat>, sa: seq<nat>, i: nat, j: nat)
    requires ValidCover(c) && IsSuffixArray(t, sa) && Possible(c, t, r, sa) && i < |t| && j < |t| && Told(c, t, r, i, j)
    ensures SufLess(t, i, j)
  {
    var back := Inverse(sa, |t|);
    ToldEarlier(c, t, r, sa, back[i], back[j]);
  }

  lemma {:induction false} Ascends(p: seq<nat>, x: nat, y: nat)
    requires (forall k: nat, k': nat | k' == k + 1 < |p| :: p[k] < p[k']) && x <= y < |p|
    ensures x < y ==> p[x] < p[y]
    ensures p[x] <= p[y]
    decreases y
  {
    if x < y {
      var y' := y - 1;
      Ascends(p, x, y');
      assert p[y'] < p[y];
    }
  }

  /** Where the neighbours of the suffix array come in an order. */
  lemma PlacesAscend(c: Cover, t: Text, r: seq<nat>, sa: seq<nat>, order: seq<nat>, k: nat, k': nat)
    requires ValidCover(c) && IsSuffixArray(t, sa) && Possible(c, t, r, order)
    requires k' == k + 1 < |sa| && NeighbourTold(c, t, r, sa, k)
    ensures Inverse(order, |t|)[sa[k]] < Inverse(order, |t|)[sa[k']]
  {
    var x, y := Inverse(order, |t|)[sa[k]], Inverse(order, |t|)[sa[k']];
    ToldEarlier(c, t, r, order, x, y);
  }

  /** A possible order that keeps all neighbours of the suffix array in place is the suffix array. */
  lemma NeighboursForce(c: Cover, t: Text, r: seq<nat>, sa: seq<nat>, order: seq<nat>)
    requires ValidCover(c) && IsSuffixArray(t, sa) && Possible(c, t, r, order) && NeighboursTold(c, t, r, sa)
    ensures IsSuffixArray(t, order)
  {
    var at, ranks := Inverse(order, |t|), Inverse(sa, |t|);
    var p := seq<nat>(|sa|, k requires 0 <= k < |sa| => at[sa[k]]);
    forall k: nat, k': nat | k' == k + 1 < |p| ensures p[k] < p[k'] {
      assert NeighbourTold(c, t, r, sa, k);
      PlacesAscend(c, t, r, sa, order, k, k');
    }
    forall a: nat, b: nat | a < b < |t| ensures SufLess(t, order[a], order[b]) {
      var x, y := ranks[order[a]], ranks[order[b]];
      assert sa[x] == order[a] && sa[y] == order[b] && p[x] == a && p[y] == b;
      if y <= x { Ascends(p, y, x); }
    }
  }

  /** A suffix array with two neighbours exchanged. */
  ghost function Exchanged(sa: seq<nat>, k: nat): (r: seq<nat>)
    requires k + 1 < |sa|
    ensures |r| == |sa|
  {
    seq<nat>(|sa|, x requires 0 <= x < |sa| => sa[if x == k then k + 1 else if x == k + 1 then k else x])
  }

  lemma ExchangedOrder(t: Text, sa: seq<nat>, k: nat, x: nat, y: nat)
    requires IsSuffixArray(t, sa) && k + 1 < |sa| && x < y < |sa|
    ensures SufLess(t, Exchanged(sa, k)[y], Exchanged(sa, k)[x]) <==> x == k && y == k + 1
  {
    var x' := if x == k then k + 1 else if x == k + 1 then k else x;
    var y' := if y == k then k + 1 else if y == k + 1 then k else y;
    RankOrder(t, sa, y', x');
  }

  lemma ExchangedIsWrong(t: Text, sa: seq<nat>, k: nat)
    requires IsSuffixArray(t, sa) && k + 1 < |sa|
    ensures IsPerm(Exchanged(sa, k), |t|) && !IsSuffixArray(t, Exchanged(sa, k))
  {
    var order := Exchanged(sa, k);
    ExchangedOrder(t, sa, k, k, k + 1);
    SufTotal(t, order[k], order[k + 1]);
    assert !SufLess(t, order[k], order[k + 1]);
  }

  lemma ExchangedPossible(c: Cover, t: Text, r: seq<nat>, sa: seq<nat>, k: nat)
    requires ValidCover(c) && IsSuffixArray(t, sa) && NoneMisplaced(c, t, r)
    requires k + 1 < |sa| && !NeighbourTold(c, t, r, sa, k)
    ensures Possible(c, t, r, Exchanged(sa, k))
  {
    var order := Exchanged(sa, k);
    ExchangedIsWrong(t, sa, k);
    forall x: nat, y: nat | x < y < |order| ensures !Told(c, t, r, order[y], order[x]) {
      ExchangedOrder(t, sa, k, x, y);
    }
  }

  lemma UntoldAllowsWrong(c: Cover, t: Text, r: seq<nat>, sa: seq<nat>, k: nat)
    requires ValidCover(c) && Complete(c, t, r) && IsSuffixArray(t, sa) && NoneMisplaced(c, t, r)
    requires k + 1 < |sa| && !NeighbourTold(c, t, r, sa, k)
    ensures AllowsWrongOrder(c, t, r)
  {
    ExchangedPossible(c, t, r, sa, k);
    ExchangedIsWrong(t, sa, k);
    PossibleIsArranged(c, t, r, Exchanged(sa, k));
  }

  /** While no fragment is misplaced, wrong orders are allowed exactly when some neighbours are not told apart. */
  lemma WrongOrderIsUntold(c: Cover, t: Text, r: seq<nat>, sa: seq<nat>)
    requires ValidCover(c) && Complete(c, t, r) && IsSuffixArray(t, sa) && NoneMisplaced(c, t, r)
    ensures AllowsWrongOrder(c, t, r) <==> !NeighboursTold(c, t, r, sa)
  {
    if NeighboursTold(c, t, r, sa) {
      forall s: seq<Fragment> | Arranges(c, t, r, s) ensures IsSuffixArray(t, Order(s)) {
        ArrangedIsPossible(c, t, r, s);
        NeighboursForce(c, t, r, sa, Order(s));
      }
    } else {
      var k: nat :| k + 1 < |sa| && !NeighbourTold(c, t, r, sa, k);
      UntoldAllowsWrong(c, t, r, sa, k);
    }
  }

  /** The suffix array is the one sorted arrangement exactly when the comparison misplaces no fragment and tells
      neighbours of the suffix array apart. */
  lemma ForcedIsExact(c: Cover, t: Text, r: seq<nat>, sa: seq<nat>)
    requires ValidCover(c) && Complete(c, t, r) && IsSuffixArray(t, sa)
    ensures ForcesSuffixArray(c, t, r) <==> NoneMisplaced(c, t, r) && NeighboursTold(c, t, r, sa)
  {
    SuffixArrayPossible(c, t, r, sa);
    if ForcesSuffixArray(c, t, r) {
      var s: seq<Fragment> :| Arranges(c, t, r, s);
      ArrangedIsPossible(c, t, r, s);
      SuffixArrayUnique(t, Order(s), sa);
    }
    if NoneMisplaced(c, t, r) {
      PossibleIsArranged(c, t, r, sa);
      WrongOrderIsUntold(c, t, r, sa);
    }
  }

  /** With one misplaced fragment, no sorted arrangement gives the suffix array; there may be none at all. */
  lemma MisplacedForbids(c: Cover, t: Text, r: seq<nat>, i: nat, j: nat)
    requires ValidCover(c) && Complete(c, t, r) && i < |t| && j < |t| && Told(c, t, r, i, j) && !SufLess(t, i, j)
    ensures ForbidsSuffixArray(c, t, r)
  {
    assert !NoneMisplaced(c, t, r);
    forall s: seq<Fragment> | Arranges(c, t, r, s) ensures !IsSuffixArray(t, Order(s)) {
      ArrangedIsPossible(c, t, r, s);
      if IsSuffixArray(t, Order(s)) { SuffixArrayPossible(c, t, r, Order(s)); }
    }
  }

  /** Where the comparison goes round in a circle, nothing is sorted. */
  lemma CycleUnsorted(c: Cover, t: Text, r: seq<nat>, i: nat, j: nat, k: nat, s: seq<Fragment>)
    requires ValidCover(c) && Complete(c, t, r) && i < |t| && j < |t| && k < |t|
    requires Told(c, t, r, i, j) && Told(c, t, r, j, k) && Told(c, t, r, k, i)
    ensures !Arranges(c, t, r, s)
  {
    if Arranges(c, t, r, s) {
      ArrangedIsPossible(c, t, r, s);
      var at := Inverse(Order(s), |t|);
      ToldEarlier(c, t, r, Order(s), at[i], at[j]);
      ToldEarlier(c, t, r, Order(s), at[j], at[k]);
    }
  }

  // ---------------------------------------------------------------- fragments without ranks

  lemma NoRanks(c: Cover, t: Text, i: nat, f: nat, distance: nat)
    requires ValidCover(c) && i % c.period < c.period && ValidRow(c, i % c.period)
          && FieldAt(c, i % c.period, f, distance)
    ensures RankAt(FragmentFor(c, t, [], i), f) == 0
  {
    var b, k := FragmentRank(c, t, [], i, i % c.period, f, distance);
  }

  /** The characters the comparison reads at `i` and `j` are the same. */
  ghost predicate SameCharacters(c: Cover, t: Text, i: nat, j: nat)
    requires ValidCover(c)
  {
    Agree(t, i, j, Entry(c, i, j).depth)
  }

  /** When all ranks are zero, only characters tell fragments apart. */
  lemma RanklessOrder(c: Cover, t: Text, i: nat, j: nat)
    requires ValidCover(c)
    ensures Told(c, t, [], i, j) <==> !SameCharacters(c, t, i, j) && SufLess(t, i, j)
  {
    var p := Entry(c, i, j);
    ParamsSized(c);
    assert ValidRow(c, i % c.period) && ValidRow(c, j % c.period) && ValidEntry(c, i % c.period, j % c.period);
    LessIsCompare(c, t, [], i, j);
    FragmentsCompare(c, t, [], i, j);
    NoRanks(c, t, i, p.first, p.depth);
    NoRanks(c, t, j, p.second, p.depth);
  }

  /** The zipped blocks reach the end of the text, so that every position gets a fragment although there are no
      ranks. */
  ghost predicate ReachesEnd(c: Cover, n: nat)
    requires ValidResidues(c)
  {
    n == 0 || (TwoBlocks(c, n) && (c.residues[0] > 0 || n % c.period > 0))
  }

  lemma RanklessBlocks(c: Cover, t: Text)
    requires ValidCover(c) && t != []
    ensures 0 < |Blocks(c, t, [])| <= PartSize(c, |t|, 0) && (|t| - 1) / c.period >= |Blocks(c, t, [])| - 1
    ensures ReachesEnd(c, |t|) <==> |Blocks(c, t, [])| == PartSize(c, |t|, 0) >= 2
  {
    ZeroBlocks(|c.residues|);
    TextBlocks(c, |t|);
    SampleBound(c, |t|, 1, 0);
    LastBlock(|t|, c.period);
  }

  lemma ZeroBlocks(d: nat)
    requires d > 0
    ensures (0 + d - 1) / d == 0
  {
    DivisionUnique(d - 1, 0, d - 1, d);
  }

  lemma LastBlock(n: nat, v: nat)
    requires n > 0 && v > 0
    ensures n % v > 0 ==> (n - 1) / v == n / v
    ensures n % v == 0 ==> n / v > 0 && (n - 1) / v == n / v - 1
  {
    assert n == (n / v) * v + n % v;
    if n % v > 0 {
      DivisionUnique(n - 1, n / v, n % v - 1, v);
    } else {
      Distribute(n / v - 1, 1, v);
      DivisionUnique(n - 1, n / v - 1, v - 1, v);
    }
  }

  /** The fragments are fragments of the text, and of the blocks before the last. */
  ghost predicate WithinPairs(c: Cover, t: Text, r: seq<nat>, s: seq<Fragment>, count: nat)
    requires ValidCover(c)
  {
    forall x | x in s :: Proper(c, t, r, x) && x.index / c.period < count
  }

  lemma {:induction false} UnionWithin(c: Cover, t: Text, r: seq<nat>, pairs: seq<BlockPair>, a: nat)
    requires ValidCover(c) && ListsPairs(c, t, r, pairs, |pairs|) && a <= c.period
    ensures WithinPairs(c, t, r, UnionBelow(c, |t|, pairs, a), |pairs|)
    decreases a
  {
    if a > 0 {
      var before := a - 1;
      UnionWithin(c, t, r, pairs, before);
      MoreWithin(c, t, r, pairs, before, a);
    }
  }

  lemma MoreWithin(c: Cover, t: Text, r: seq<nat>, pairs: seq<BlockPair>, a: nat, a': nat)
    requires ValidCover(c) && ListsPairs(c, t, r, pairs, |pairs|) && a' == a + 1 <= c.period
    requires WithinPairs(c, t, r, UnionBelow(c, |t|, pairs, a), |pairs|)
    ensures WithinPairs(c, t, r, UnionBelow(c, |t|, pairs, a'), |pairs|)
  {
    ResidueWithin(c, t, r, pairs, a);
    WithinAppend(c, t, r, UnionBelow(c, |t|, pairs, a), FragmentsAt(c, |t|, pairs, a), |pairs|);
    assert a == a' - 1;
  }

  lemma WithinAppend(c: Cover, t: Text, r: seq<nat>, s: seq<Fragment>, s': seq<Fragment>, count: nat)
    requires ValidCover(c) && WithinPairs(c, t, r, s, count) && WithinPairs(c, t, r, s', count)
    ensures WithinPairs(c, t, r, s + s', count)
  {
  }

  lemma ResidueWithin(c: Cover, t: Text, r: seq<nat>, pairs: seq<BlockPair>, a: nat)
    requires ValidCover(c) && ListsPairs(c, t, r, pairs, |pairs|) && a < c.period
    ensures WithinPairs(c, t, r, FragmentsAt(c, |t|, pairs, a), |pairs|)
  {
    FragmentsAtHold(c, t, r, pairs, a);
  }

  lemma RanklessWithin(c: Cover, t: Text)
    requires ValidCover(c) && !ReachesEnd(c, |t|) && |Blocks(c, t, [])| > 0
    ensures WithinPairs(c, t, [], Fragments(c, t, []), |Blocks(c, t, [])| - 1)
  {
    RanklessBlocks(c, t);
    RanklessPairs(c, t, Blocks(c, t, []));
    UnionWithin(c, t, [], RanklessPairsOf(c, t, Blocks(c, t, [])), c.period);
  }

  ghost function RanklessPairsOf(c: Cover, t: Text, s: seq<Block>): seq<BlockPair>
    requires ValidCover(c) && |s| > 0
  {
    PairBlocks(c, s, PartSize(c, |t|, 0), |s| - 1)
  }

  lemma RanklessPairs(c: Cover, t: Text, s: seq<Block>)
    requires ValidCover(c) && s == Blocks(c, t, []) && 0 < |s| <= PartSize(c, |t|, 0)
          && !(|s| == PartSize(c, |t|, 0) >= 2)
    ensures ListsPairs(c, t, [], RanklessPairsOf(c, t, s), |s| - 1)
  {
    PairsAre(c, t, [], |s| - 1);
  }

  ghost function BySuffix(t: Text): (Fragment, Fragment) -> bool {
    (x: Fragment, y: Fragment) => SufLess(t, x.index, y.index)
  }

  lemma BySuffixIsOrder(c: Cover, t: Text, r: seq<nat>, s: seq<Fragment>, count: nat)
    requires ValidCover(c) && WithinPairs(c, t, r, s, count)
    ensures StrictWeakOrderOn(BySuffix(t), s)
  {
    var less := BySuffix(t);
    forall x, y, z | x in s && y in s && z in s
      ensures !less(x, x) && (less(x, y) && less(y, z) ==> less(x, z)) && (less(x, z) ==> less(x, y) || less(y, z)) {
      assert Proper(c, t, r, x) && Proper(c, t, r, y) && Proper(c, t, r, z);
      SufIsOrder(t, x.index, y.index, z.index);
    }
  }

  lemma RanklessArranged(c: Cover, t: Text, s: seq<Fragment>, count: nat)
    requires ValidCover(c) && s == Fragments(c, t, []) && WithinPairs(c, t, [], s, count)
    ensures Arranges(c, t, [], Sort(s, BySuffix(t)))
  {
    var q := Sort(s, BySuffix(t));
    BySuffixIsOrder(c, t, [], s, count);
    SameItems(s, q);
    ParamsSized(c);
    forall x, y | 0 <= x < y < |q| ensures !FragmentLess(c)(q[y], q[x]) {
      assert Proper(c, t, [], q[x]) && Proper(c, t, [], q[y]) && !BySuffix(t)(q[y], q[x]);
      RanklessOrder(c, t, q[y].index, q[x].index);
    }
  }

  /** Where the fragments do not reach the end of the text, no arrangement of them is its suffix array. */
  lemma MissingEndIsWrong(c: Cover, t: Text, r: seq<nat>, z: seq<Fragment>, s: seq<Fragment>, count: nat)
    requires ValidCover(c) && t != [] && WithinPairs(c, t, r, z, count) && (|t| - 1) / c.period >= count
    requires multiset(s) == multiset(z)
    ensures !IsSuffixArray(t, Order(s))
  {
    SameItems(s, z);
    assert |t| - 1 !in Order(s) by {
      forall k: nat | k < |s| ensures s[k].index != |t| - 1 { assert s[k] in z; }
    }
    if IsSuffixArray(t, Order(s)) { PermHits(Order(s), |t|, |t| - 1); }
  }

  lemma MissingEndAllowsWrong(c: Cover, t: Text)
    requires ValidCover(c) && !ReachesEnd(c, |t|)
    ensures AllowsWrongOrder(c, t, [])
  {
    RanklessBlocks(c, t);
    var z, count := Fragments(c, t, []), |Blocks(c, t, [])| - 1;
    RanklessWithin(c, t);
    RanklessArranged(c, t, z, count);
    MissingEndIsWrong(c, t, [], z, Sort(z, BySuffix(t)), count);
  }

  lemma RanklessComplete(c: Cover, t: Text)
    requires ValidCover(c) && t != [] && ReachesEnd(c, |t|)
    ensures Complete(c, t, [])
  {
    RanklessBlocks(c, t);
    FragmentsCoverText(c, t, []);
  }

  lemma RanklessNoneMisplaced(c: Cover, t: Text)
    requires ValidCover(c)
    ensures NoneMisplaced(c, t, [])
  {
    forall i: nat, j: nat | i < |t| && j < |t| && Told(c, t, [], i, j) ensures SufLess(t, i, j) {
      RanklessOrder(c, t, i, j);
    }
  }

  /** Two neighbours of the suffix array agree in all characters that are compared. */
  ghost predicate SharesCharacters(c: Cover, t: Text, sa: seq<nat>)
    requires ValidCover(c)
  {
    exists k: nat :: k + 1 < |sa| && SameCharacters(c, t, sa[k], sa[k + 1])
  }

  lemma RanklessNeighbours(c: Cover, t: Text, sa: seq<nat>)
    requires ValidCover(c) && IsSuffixArray(t, sa)
    ensures NeighboursTold(c, t, [], sa) <==> !SharesCharacters(c, t, sa)
  {
    forall k: nat | k + 1 < |sa| ensures NeighbourTold(c, t, [], sa, k) <==> !SameCharacters(c, t, sa[k], sa[k + 1]) {
      RanklessOrder(c, t, sa[k], sa[k + 1]);
    }
    if NeighboursTold(c, t, [], sa) {
      forall k: nat | k + 1 < |sa| ensures !SameCharacters(c, t, sa[k], sa[k + 1]) {
        assert NeighbourTold(c, t, [], sa, k);
      }
    }
  }

  /** Without ranks, some sorted arrangement gives a wrong order exactly when some position has no fragment or two
      neighbours of the suffix array agree in all characters that are compared. */
  lemma RanklessWrongOrder(c: Cover, t: Text, sa: seq<nat>)
    requires ValidCover(c) && t != [] && IsSuffixArray(t, sa)
    ensures AllowsWrongOrder(c, t, []) <==> !ReachesEnd(c, |t|) || SharesCharacters(c, t, sa)
  {
    if ReachesEnd(c, |t|) {
      RanklessComplete(c, t);
      RanklessNoneMisplaced(c, t);
      WrongOrderIsUntold(c, t, [], sa);
      RanklessNeighbours(c, t, sa);
    } else {
      MissingEndAllowsWrong(c, t);
    }
  }
}
