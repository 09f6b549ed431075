/**
 Merging ranked samples with all other suffixes: the second half of DC3Recursive
 (examples/suffix_sorting/dc3.cpp:195-225,506-606) and DC7Recursive (examples/suffix_sorting/dc7.cpp:298-347,678-873).

 Every position becomes a fragment with a few characters and the ranks of the samples that follow it.
 The comparison of two fragments reads as many characters as its table says, then two ranks of samples
 at the same distance.
 */
module FragmentMerge {
  import opened Arithmetic
  import opened Lists
  import opened Suffixes
  import opened DifferenceCover
  import opened RecursionOrder
  import opened SampleRanks

  /** The characters of one period of the text, and the ranks of its samples. */
  datatype Block = Block(chars: seq<nat>, ranks: seq<nat>)

  datatype BlockPair = BlockPair(index: nat, cr0: Block, cr1: Block)

  datatype Fragment = Fragment(index: nat, ranks: seq<nat>, text: seq<nat>)

  function FragmentIndex(x: Fragment): nat { x.index }

  /** The tables fit together: what the comparison reads is there, and the two ranks it compares belong to
      samples at the same distance, just behind the compared characters. */
  ghost predicate ValidCover(c: Cover) {
    && ValidResidues(c) && c.residues[0] <= 1
    && |c.rankFields| == |c.textLengths| == |c.params| == c.period
    && (forall a: nat | a < c.period :: ValidRow(c, a))
    && forall a: nat, b: nat | a < c.period && b < c.period :: ValidEntry(c, a, b)
  }

  ghost predicate ValidRow(c: Cover, a: nat)
    requires |c.rankFields| == |c.textLengths| == |c.params| == c.period && a < c.period
  {
    && |c.params[a]| == c.period && c.textLengths[a] <= c.period
    && (forall f | 0 <= f < |c.rankFields[a]| ::
          c.rankFields[a][f].block <= 1 && c.rankFields[a][f].part < |c.residues|)
  }

  ghost predicate ValidEntry(c: Cover, a: nat, b: nat)
    requires |c.rankFields| == |c.textLengths| == |c.params| == c.period && a < c.period && b < c.period
    requires ValidRow(c, a) && ValidRow(c, b)
  {
    var p := c.params[a][b];
    && p.depth <= c.textLengths[a] && p.depth <= c.textLengths[b]
    && FieldAt(c, a, p.first, p.depth) && FieldAt(c, b, p.second, p.depth)
    && (a == b ==> p.first == p.second)
  }

  /** Rank field `f` of fragments at residue `a` belongs to the sample `distance` positions further on. */
  ghost predicate FieldAt(c: Cover, a: nat, f: nat, distance: nat)
    requires |c.rankFields| == |c.textLengths| == |c.params| == c.period && a < c.period && ValidRow(c, a)
  {
    f < |c.rankFields[a]|
    && c.rankFields[a][f].block * c.period + c.residues[c.rankFields[a][f].part] == a + distance
  }

  // ---------------------------------------------------------------- the pipelines

  function RankPad(r: seq<nat>, m: nat): nat { if m < |r| then r[m] else 0 }

  /** Block `b`, padded past the end of the text and past the last sample. */
  function BlockAt(c: Cover, t: Text, r: seq<nat>, b: nat): Block {
    Block(seq<nat>(c.period, k requires 0 <= k < c.period => At(t, b * c.period + k)),
          seq<nat>(|c.residues|, k requires 0 <= k < |c.residues| => RankPad(r, b * |c.residues| + k)))
  }

  /** As many blocks as the longer of the two zipped lists needs. */
  function BlockCount(c: Cover, n: nat, samples: nat): nat
    requires c.period > 0 && c.residues != []
  {
    var x, y := (n + c.period - 1) / c.period, (samples + |c.residues| - 1) / |c.residues|;
    if x > y then x else y
  }

  function Blocks(c: Cover, t: Text, r: seq<nat>): (s: seq<Block>)
    requires c.period > 0 && c.residues != []
    ensures |s| == BlockCount(c, |t|, |r|)
  {
    seq(BlockCount(c, |t|, |r|), b requires 0 <= b < BlockCount(c, |t|, |r|) => BlockAt(c, t, r, b))
  }

  function EmptyBlock(c: Cover): Block {
    Block(seq<nat>(c.period, _ => 0), seq<nat>(|c.residues|, _ => 0))
  }

  /** The first `k` windows of two blocks; behind the one that ends the first part, the last block alone. */
  function PairBlocks(c: Cover, s: seq<Block>, first: nat, k: nat): seq<BlockPair>
    requires k < |s|
  {
    if k == 0 then [] else
      PairBlocks(c, s, first, k - 1)
      + [BlockPair((k - 1) * c.period, s[k - 1], s[k])]
      + (if k + 1 == first then [BlockPair(k * c.period, s[k], EmptyBlock(c))] else [])
  }

  function FieldRank(p: BlockPair, f: RankField): nat {
    RankPad((if f.block == 0 then p.cr0 else p.cr1).ranks, f.part)
  }

  function PairChar(p: BlockPair, x: nat): nat {
    if x < |p.cr0.chars| then p.cr0.chars[x] else At(p.cr1.chars, x - |p.cr0.chars|)
  }

  /** The fragment at residue `a` of a pair of blocks. */
  function FragmentOf(c: Cover, p: BlockPair, a: nat): (x: Fragment)
    requires a < |c.rankFields| && a < |c.textLengths|
    ensures x.index == p.index + a
  {
    var fields, length := c.rankFields[a], c.textLengths[a];
    Fragment(p.index + a,
             seq<nat>(|fields|, f requires 0 <= f < |fields| => FieldRank(p, fields[f])),
             seq<nat>(length, x requires 0 <= x < length => PairChar(p, a + x)))
  }

  /** The fragments at residue `a`, without those past the end of the text. */
  function FragmentsAt(c: Cover, n: nat, pairs: seq<BlockPair>, a: nat): seq<Fragment>
    requires a < |c.rankFields| && a < |c.textLengths|
  {
    if pairs == [] then [] else
      var last := FragmentOf(c, pairs[|pairs| - 1], a);
      FragmentsAt(c, n, pairs[..|pairs| - 1], a) + (if last.index < n then [last] else [])
  }

  /** The fragments at all residues below `a`. */
  function UnionBelow(c: Cover, n: nat, pairs: seq<BlockPair>, a: nat): seq<Fragment>
    requires a <= |c.rankFields| && a <= |c.textLengths|
  {
    if a == 0 then [] else UnionBelow(c, n, pairs, a - 1) + FragmentsAt(c, n, pairs, a - 1)
  }

  function TextAt(x: Fragment, d: nat): nat { if d < |x.text| then x.text[d] else 0 }

  function RankAt(x: Fragment, f: nat): nat { if f < |x.ranks| then x.ranks[f] else 0 }

  /** Characters from `d` up to the depth of the table entry, then the two ranks. */
  predicate CompareFrom(x: Fragment, y: Fragment, p: Params, d: nat)
    decreases p.depth - d
  {
    if d < p.depth then
      if TextAt(x, d) == TextAt(y, d) then CompareFrom(x, y, p, d + 1) else TextAt(x, d) < TextAt(y, d)
    else RankAt(x, p.first) < RankAt(y, p.second)
  }

  function FragmentLess(c: Cover): (Fragment, Fragment) -> bool
    requires c.period > 0 && |c.params| == c.period && forall a | 0 <= a < c.period :: |c.params[a]| == c.period
  {
    (x: Fragment, y: Fragment) => CompareFrom(x, y, c.params[x.index % c.period][y.index % c.period], 0)
  }

  /** The fragments of all residues; without two blocks there is no window and no fragment. */
  function Fragments(c: Cover, t: Text, r: seq<nat>): seq<Fragment>
    requires ValidCover(c)
  {
    var s := Blocks(c, t, r);
    if |s| == 0 then [] else
      assert forall a: nat | a < c.period :: ValidRow(c, a);
      UnionBelow(c, |t|, PairBlocks(c, s, PartSize(c, |t|, 0), |s| - 1), c.period)
  }

  /** The sort of the fragments, mapped to their positions. */
  function Merge(c: Cover, t: Text, r: seq<nat>): seq<nat>
    requires ValidCover(c)
  {
    assert forall a | 0 <= a < c.period :: ValidRow(c, a) && |c.params[a]| == c.period;
    Map(FragmentIndex, Sort(Fragments(c, t, r), FragmentLess(c)))
  }

  // ---------------------------------------------------------------- blocks

  /** Enough characters and samples for two blocks. */
  ghost predicate TwoBlocks(c: Cover, n: nat)
    requires ValidResidues(c)
  {
    n >= c.period + c.residues[0]
  }

  lemma CeilingOf(x: nat, q: nat, r: nat, d: nat)
    requires d > 0 && r <= d && x == q * d + r
    ensures (x + d - 1) / d == q + (if r > 0 then 1 else 0)
  {
    if r == 0 {
      DivisionUnique(x + d - 1, q, d - 1, d);
    } else {
      Distribute(q, 1, d);
      DivisionUnique(x + d - 1, q + 1, r - 1, d);
    }
  }

  lemma TextBlocks(c: Cover, n: nat)
    requires ValidCover(c)
    ensures (n + c.period - 1) / c.period == n / c.period + (if n % c.period > 0 then 1 else 0)
    ensures (n + c.period - 1) / c.period <= PartSize(c, n, 0)
  {
    assert n == FullBlocks(c, n) * c.period + n % c.period;
    CeilingOf(n, FullBlocks(c, n), n % c.period, c.period);
  }

  lemma SampleBlocks(c: Cover, n: nat)
    requires ValidCover(c) && n > 0
    ensures (|Samples(c, n)| + |c.residues| - 1) / |c.residues| == PartSize(c, n, 0)
  {
    SamplesAreNumbered(c, n);
    ExtraFits(c, n);
    PartSizeClosed(c, n, 0);
    CeilingOf(|Samples(c, n)|, FullBlocks(c, n), Extra(c, n), |c.residues|);
  }

  /** The blocks are as many as the first part has samples. */
  lemma BlocksAreFirstPart(c: Cover, n: nat)
    requires ValidCover(c) && n > 0
    ensures BlockCount(c, n, |Samples(c, n)|) == PartSize(c, n, 0)
  {
    TextBlocks(c, n);
    SampleBlocks(c, n);
  }

  lemma AtLeastTwoBlocks(c: Cover, n: nat)
    requires ValidCover(c) && TwoBlocks(c, n)
    ensures PartSize(c, n, 0) >= 2
  {
    SampleBound(c, n, 1, 0);
  }

  lemma CharPastEnd(c: Cover, t: Text, r: seq<nat>, b: nat, k: nat)
    requires ValidCover(c) && b == PartSize(c, |t|, 0) && k < c.period
    ensures BlockAt(c, t, r, b).chars[k] == 0
  {
    BlocksCoverText(c, |t|);
    assert b * c.period >= |t|;
    assert At(t, b * c.period + k) == 0;
  }

  lemma LaterPartsSmaller(c: Cover, n: nat, k: nat)
    requires ValidCover(c) && k < |c.residues|
    ensures PartSize(c, n, k) <= PartSize(c, n, 0)
  {
    PartSizeClosed(c, n, k);
    PartSizeClosed(c, n, 0);
  }

  lemma RankPastEnd(c: Cover, t: Text, r: seq<nat>, b: nat, k: nat)
    requires ValidCover(c) && b == PartSize(c, |t|, 0) && k < |c.residues| && |r| <= |Samples(c, |t|)|
    ensures BlockAt(c, t, r, b).ranks[k] == 0
  {
    LaterPartsSmaller(c, |t|, k);
    var m := b * |c.residues| + k;
    if |t| > 0 { SampleNumbers(c, |t|, b, k, m); }
    assert RankPad(r, m) == 0;
  }

  /** Behind the last block there is nothing. */
  lemma BlockPastEnd(c: Cover, t: Text, r: seq<nat>, b: nat)
    requires ValidCover(c) && |r| <= |Samples(c, |t|)| && b == PartSize(c, |t|, 0)
    ensures BlockAt(c, t, r, b) == EmptyBlock(c)
  {
    var x := BlockAt(c, t, r, b);
    forall k: nat | k < c.period ensures x.chars[k] == 0 { CharPastEnd(c, t, r, b, k); }
    forall k: nat | k < |c.residues| ensures x.ranks[k] == 0 { RankPastEnd(c, t, r, b, k); }
    assert x.chars == EmptyBlock(c).chars && x.ranks == EmptyBlock(c).ranks;
  }

  lemma BlocksCoverText(c: Cover, n: nat)
    requires ValidCover(c)
    ensures PartSize(c, n, 0) * c.period >= n
  {
    var q := n / c.period;
    assert n == q * c.period + n % c.period;
    Distribute(q, 1, c.period);
  }

  /** The pairs are those of neighbouring blocks, the last one with an empty block. */
  lemma {:induction false} PairsAre(c: Cover, t: Text, r: seq<nat>, k: nat)
    requires ValidCover(c) && |r| <= |Samples(c, |t|)| && k < |Blocks(c, t, r)| <= PartSize(c, |t|, 0)
    ensures ListsPairs(c, t, r, PairBlocks(c, Blocks(c, t, r), PartSize(c, |t|, 0), k),
                       if 0 < k && k + 1 == PartSize(c, |t|, 0) then k + 1 else k)
    decreases k
  {
    if k > 0 {
      PairsAre(c, t, r, k - 1);
      if k + 1 == PartSize(c, |t|, 0) { BlockPastEnd(c, t, r, k + 1); }
    }
  }

  ghost function PairAt(c: Cover, t: Text, r: seq<nat>, b: nat): BlockPair {
    BlockPair(b * c.period, BlockAt(c, t, r, b), BlockAt(c, t, r, b + 1))
  }

  ghost predicate ListsPairs(c: Cover, t: Text, r: seq<nat>, pairs: seq<BlockPair>, count: nat) {
    |pairs| == count && forall b: nat | b < count :: pairs[b] == PairAt(c, t, r, b)
  }

  // ---------------------------------------------------------------- one fragment for every position

  ghost function FragmentFor(c: Cover, t: Text, r: seq<nat>, i: nat): (x: Fragment)
    requires ValidCover(c)
    ensures x.index == i
  {
    assert i == (i / c.period) * c.period + i % c.period;
    FragmentOf(c, PairAt(c, t, r, i / c.period), i % c.period)
  }

  lemma FragmentForBlock(c: Cover, t: Text, r: seq<nat>, b: nat, a: nat)
    requires ValidCover(c) && a < c.period
    ensures FragmentOf(c, PairAt(c, t, r, b), a) == FragmentFor(c, t, r, b * c.period + a)
    ensures (b * c.period + a) % c.period == a && (b * c.period + a) / c.period == b
  {
    DivisionUnique(b * c.period + a, b, a, c.period);
  }

  /** `x` is the fragment of its position, which is in the text. */
  ghost predicate Proper(c: Cover, t: Text, r: seq<nat>, x: Fragment)
    requires ValidCover(c)
  {
    x.index < |t| && x == FragmentFor(c, t, r, x.index)
  }

  /** `s` holds exactly the fragments of the positions selected by `wanted`, each once. */
  ghost predicate Holds(c: Cover, t: Text, r: seq<nat>, s: seq<Fragment>, wanted: nat -> bool)
    requires ValidCover(c)
  {
    && (forall x | x in s :: Proper(c, t, r, x) && wanted(x.index))
    && (forall i: nat | i < |t| && wanted(i) :: FragmentFor(c, t, r, i) in s)
    && forall p, q | 0 <= p < q < |s| :: s[p].index != s[q].index
  }

  lemma HoldsAppend(c: Cover, t: Text, r: seq<nat>, s: seq<Fragment>, s': seq<Fragment>,
                    wanted: nat -> bool, wanted': nat -> bool, both: nat -> bool)
    requires ValidCover(c) && Holds(c, t, r, s, wanted) && Holds(c, t, r, s', wanted')
    requires forall i: nat :: !(wanted(i) && wanted'(i))
    requires forall i: nat | i < |t| :: both(i) <==> wanted(i) || wanted'(i)
    ensures Holds(c, t, r, s + s', both)
  {
    forall i: nat | i < |t| && both(i) ensures FragmentFor(c, t, r, i) in s + s' {
      assert wanted(i) || wanted'(i);
    }
    forall p, q | 0 <= p < q < |s + s'| ensures (s + s')[p].index != (s + s')[q].index {
      if p < |s| <= q {
        assert s[p] in s && s'[q - |s|] in s';
      }
    }
  }

  ghost function InBlocksAt(c: Cover, count: nat, a: nat): nat -> bool
    requires c.period > 0
  {
    (i: nat) => i % c.period == a && i / c.period < count
  }

  ghost function ResidueIs(c: Cover, a: nat): nat -> bool
    requires c.period > 0
  {
    (i: nat) => i % c.period == a
  }

  ghost function ResidueBelow(c: Cover, a: nat): nat -> bool
    requires c.period > 0
  {
    (i: nat) => i % c.period < a
  }

  lemma LastFragment(c: Cover, t: Text, r: seq<nat>, b: nat, a: nat)
    requires ValidCover(c) && a < c.period
    ensures var x := FragmentOf(c, PairAt(c, t, r, b), a);
            Holds(c, t, r, if x.index < |t| then [x] else [], (i: nat) => i % c.period == a && i / c.period == b)
  {
    FragmentForBlock(c, t, r, b, a);
    forall i: nat | i < |t| && i % c.period == a && i / c.period == b ensures i == b * c.period + a { }
  }

  lemma {:induction false} FragmentsAtHold(c: Cover, t: Text, r: seq<nat>, pairs: seq<BlockPair>, a: nat)
    requires ValidCover(c) && ListsPairs(c, t, r, pairs, |pairs|) && a < c.period
    ensures Holds(c, t, r, FragmentsAt(c, |t|, pairs, a), InBlocksAt(c, |pairs|, a))
    decreases |pairs|
  {
    if pairs != [] {
      var b := |pairs| - 1;
      FragmentsAtHold(c, t, r, pairs[..b], a);
      LastFragment(c, t, r, b, a);
      var x := FragmentOf(c, PairAt(c, t, r, b), a);
      HoldsAppend(c, t, r, FragmentsAt(c, |t|, pairs[..b], a), if x.index < |t| then [x] else [],
                  InBlocksAt(c, b, a), (i: nat) => i % c.period == a && i / c.period == b, InBlocksAt(c, |pairs|, a));
    }
  }

  lemma HoldsSame(c: Cover, t: Text, r: seq<nat>, s: seq<Fragment>, wanted: nat -> bool, same: nat -> bool)
    requires ValidCover(c) && Holds(c, t, r, s, wanted)
    requires forall i: nat | i < |t| :: wanted(i) <==> same(i)
    ensures Holds(c, t, r, s, same)
  {
  }

  lemma BlocksEnough(c: Cover, n: nat, i: nat)
    requires ValidCover(c) && i < n
    ensures i / c.period < PartSize(c, n, 0)
  {
    BlocksCoverText(c, n);
    assert i == (i / c.period) * c.period + i % c.period;
    if i / c.period >= PartSize(c, n, 0) { ProductMonotone(PartSize(c, n, 0), i / c.period, c.period); }
  }

  lemma AllBlocksAt(c: Cover, t: Text, r: seq<nat>, pairs: seq<BlockPair>, a: nat)
    requires ValidCover(c) && |pairs| == PartSize(c, |t|, 0) && a < c.period
    requires Holds(c, t, r, FragmentsAt(c, |t|, pairs, a), InBlocksAt(c, |pairs|, a))
    ensures Holds(c, t, r, FragmentsAt(c, |t|, pairs, a), ResidueIs(c, a))
  {
    forall i: nat | i < |t| ensures InBlocksAt(c, |pairs|, a)(i) <==> ResidueIs(c, a)(i) { BlocksEnough(c, |t|, i); }
    HoldsSame(c, t, r, FragmentsAt(c, |t|, pairs, a), InBlocksAt(c, |pairs|, a), ResidueIs(c, a));
  }

  /** The fragments at one more residue. */
  lemma UnionNext(c: Cover, t: Text, r: seq<nat>, s: seq<Fragment>, s': seq<Fragment>, a: nat, a': nat)
    requires ValidCover(c) && a' == a + 1 && Holds(c, t, r, s, ResidueBelow(c, a))
          && Holds(c, t, r, s', ResidueIs(c, a))
    ensures Holds(c, t, r, s + s', ResidueBelow(c, a'))
  {
    HoldsAppend(c, t, r, s, s', ResidueBelow(c, a), ResidueIs(c, a), ResidueBelow(c, a'));
  }

  /** The union below `a` holds the positions of the residues below `a`. */
  ghost predicate UnionRight(c: Cover, t: Text, r: seq<nat>, pairs: seq<BlockPair>, a: nat)
    requires ValidCover(c) && a <= c.period
  {
    Holds(c, t, r, UnionBelow(c, |t|, pairs, a), ResidueBelow(c, a))
  }

  lemma UnionEmpty(c: Cover, t: Text, r: seq<nat>, pairs: seq<BlockPair>)
    requires ValidCover(c)
    ensures UnionRight(c, t, r, pairs, 0)
  {
    forall i: nat ensures !ResidueBelow(c, 0)(i) { assert i % c.period >= 0; }
  }

  lemma UnionStep(c: Cover, t: Text, r: seq<nat>, pairs: seq<BlockPair>, a: nat, a': nat)
    requires ValidCover(c) && ListsPairs(c, t, r, pairs, |pairs|) && |pairs| == PartSize(c, |t|, 0)
          && a' == a + 1 <= c.period
    requires UnionRight(c, t, r, pairs, a)
    ensures UnionRight(c, t, r, pairs, a')
  {
    ResidueHolds(c, t, r, pairs, a);
    assert a == a' - 1;
    UnionNext(c, t, r, UnionBelow(c, |t|, pairs, a), FragmentsAt(c, |t|, pairs, a), a, a');
  }

  lemma {:induction false} UnionHolds(c: Cover, t: Text, r: seq<nat>, pairs: seq<BlockPair>, a: nat)
    requires ValidCover(c) && ListsPairs(c, t, r, pairs, |pairs|) && |pairs| == PartSize(c, |t|, 0) && a <= c.period
    ensures UnionRight(c, t, r, pairs, a)
    decreases a
  {
    if a == 0 {
      UnionEmpty(c, t, r, pairs);
    } else {
      var before := a - 1;
      UnionHolds(c, t, r, pairs, before);
      UnionStep(c, t, r, pairs, before, a);
    }
  }

  lemma ResidueHolds(c: Cover, t: Text, r: seq<nat>, pairs: seq<BlockPair>, a: nat)
    requires ValidCover(c) && ListsPairs(c, t, r, pairs, |pairs|) && |pairs| == PartSize(c, |t|, 0) && a < c.period
    ensures Holds(c, t, r, FragmentsAt(c, |t|, pairs, a), ResidueIs(c, a))
  {
    FragmentsAtHold(c, t, r, pairs, a);
    AllBlocksAt(c, t, r, pairs, a);
  }

  /** The fragments that are sorted: one for every position of the text. */
  lemma FragmentsCoverText(c: Cover, t: Text, r: seq<nat>)
    requires ValidCover(c) && |r| <= |Samples(c, |t|)|
    requires |Blocks(c, t, r)| == PartSize(c, |t|, 0) >= 2
    ensures Holds(c, t, r, Fragments(c, t, r), _ => true)
  {
    var pairs := PairBlocks(c, Blocks(c, t, r), PartSize(c, |t|, 0), |Blocks(c, t, r)| - 1);
    PairsAre(c, t, r, |Blocks(c, t, r)| - 1);
    UnionHolds(c, t, r, pairs, c.period);
    assert UnionRight(c, t, r, pairs, c.period);
    HoldsSame(c, t, r, UnionBelow(c, |t|, pairs, c.period), ResidueBelow(c, c.period), _ => true);
  }

  // ---------------------------------------------------------------- what a fragment holds

  lemma FragmentText(c: Cover, t: Text, r: seq<nat>, i: nat, x: nat)
    requires ValidCover(c) && i % c.period < c.period && ValidRow(c, i % c.period) && x < c.textLengths[i % c.period]
    ensures TextAt(FragmentFor(c, t, r, i), x) == At(t, i + x)
  {
    var b, a := i / c.period, i % c.period;
    assert i == b * c.period + a;
    Distribute(b, 1, c.period);
    assert c.textLengths[a] <= c.period;
    if a + x < c.period {
      assert BlockAt(c, t, r, b).chars[a + x] == At(t, b * c.period + (a + x));
    } else {
      assert BlockAt(c, t, r, b + 1).chars[a + x - c.period] == At(t, (b + 1) * c.period + (a + x - c.period));
    }
  }

  /** The rank of sample position `b * period + residues[k]`, zero where there is no sample. */
  ghost function SampleRank(c: Cover, r: seq<nat>, b: nat, k: nat): nat {
    RankPad(r, SampleNumber(c, b, k))
  }

  ghost function SampleNumber(c: Cover, b: nat, k: nat): nat { b * |c.residues| + k }

  lemma FragmentRank(c: Cover, t: Text, r: seq<nat>, i: nat, a: nat, f: nat, distance: nat) returns (b: nat, k: nat)
    requires ValidCover(c) && a == i % c.period < c.period && ValidRow(c, a) && FieldAt(c, a, f, distance)
    ensures k < |c.residues| && Position(c, b, k) == i + distance
    ensures k == c.rankFields[a][f].part
    ensures RankAt(FragmentFor(c, t, r, i), f) == SampleRank(c, r, b, k)
  {
    var field := c.rankFields[a][f];
    assert field.block <= 1 && field.part < |c.residues|;
    b, k := FullBlocks(c, i) + field.block, field.part;
    assert i == FullBlocks(c, i) * c.period + a;
    Distribute(FullBlocks(c, i), field.block, c.period);
    FieldOfPair(c, t, r, FullBlocks(c, i), field, b);
  }

  lemma FieldOfPair(c: Cover, t: Text, r: seq<nat>, own: nat, field: RankField, b: nat)
    requires field.block <= 1 && field.part < |c.residues| && b == own + field.block
    ensures FieldRank(PairAt(c, t, r, own), field) == SampleRank(c, r, b, field.part)
  {
    var pair := PairAt(c, t, r, own);
    assert (if field.block == 0 then pair.cr0 else pair.cr1) == BlockAt(c, t, r, b);
    assert BlockAt(c, t, r, b).ranks[field.part] == RankPad(r, SampleNumber(c, b, field.part));
  }

  // ---------------------------------------------------------------- the comparison

  /** Comparing characters first, then ranks. */
  lemma {:induction false} CompareDecides(t: Text, i: nat, j: nat, x: Fragment, y: Fragment, p: Params, d: nat)
    requires d <= p.depth && Agree(t, i, j, d)
    requires forall k: nat | k < p.depth :: TextAt(x, k) == At(t, i + k) && TextAt(y, k) == At(t, j + k)
    ensures CompareFrom(x, y, p, d) <==>
            if Agree(t, i, j, p.depth) then RankAt(x, p.first) < RankAt(y, p.second) else SufLess(t, i, j)
    decreases p.depth - d
  {
    if d < p.depth {
      AgreeSplit(t, i, j, d, 1);
      if TextAt(x, d) == TextAt(y, d) {
        assert Agree(t, i + d, j + d, 1);
        CompareDecides(t, i, j, x, y, p, d + 1);
      } else {
        FirstDifference(t, i, j, d);
        if Agree(t, i, j, p.depth) { AgreeAt(t, i, j, p.depth, d); }
      }
    }
  }

  /** The table entry for the fragments at `i` and `j`. */
  ghost function Entry(c: Cover, i: nat, j: nat): Params
    requires ValidCover(c)
  {
    assert ValidRow(c, i % c.period);
    c.params[i % c.period][j % c.period]
  }

  /** A position of a cover residue has no sample: it is past the end, or at the end in the last part. */
  ghost predicate NoSampleAt(c: Cover, n: nat, p: nat)
    requires ValidResidues(c)
  {
    p > n || (p == n && p % c.period == c.residues[|c.residues| - 1])
  }

  /** The comparison of the suffix at `j` with the longer one at `i` sees only characters that agree, and
      then no sample: it cannot tell that the shorter suffix is the smaller one. */
  ghost predicate Blind(c: Cover, t: Text, i: nat, j: nat)
    requires ValidCover(c) && i < j < |t|
  {
    Agree(t, i, j, Entry(c, j, i).depth) && NoSampleAt(c, |t|, i + Entry(c, j, i).depth)
  }

  /** No comparison is blind. */
  ghost predicate Sees(c: Cover, t: Text)
    requires ValidCover(c)
  {
    forall i: nat, j: nat | i < j < |t| :: !Blind(c, t, i, j)
  }

  lemma NoSampleIs(c: Cover, n: nat, b: nat, k: nat)
    requires ValidCover(c) && k < |c.residues|
    ensures NoSampleAt(c, n, Position(c, b, k)) <==> PartSize(c, n, k) <= b
  {
    SampleBound(c, n, b, k);
    PositionParts(c, b, k);
    if k + 1 < |c.residues| { assert c.residues[k] < c.residues[|c.residues| - 1]; }
  }

  /** A suffix that ends within the agreeing characters, next to one that goes on. */
  lemma EndsFirst(t: Text, i: nat, j: nat, h: nat)
    requires Agree(t, i, j, h) && i < j < |t| && j + h >= |t|
    ensures SufLess(t, j, i) && !SufLess(t, i, j)
  {
    AgreeSymmetric(t, i, j, h);
    ShorterIsSmaller(t, j, i, h);
    SufTotal(t, i, j);
  }

  lemma BothEnd(t: Text, i: nat, j: nat, h: nat)
    requires Agree(t, i, j, h) && i < j < |t| && i + h >= |t|
    ensures t[|t| - 1] == 0 && h >= 2 && (h == 2 ==> i + 2 == |t| && j + 1 == |t|)
  {
    AgreeAt(t, i, j, h, |t| - 1 - i);
  }

  /** Two sample ranks at the same distance order like the suffixes, unless neither position has a sample. */
  lemma RanksDecide(c: Cover, t: Text, r: seq<nat>, i: nat, j: nat, h: nat, b: nat, k: nat, b': nat, k': nat)
    requires ValidCover(c) && RanksSamples(c, t, r) && i < |t| && j < |t| && i != j && Agree(t, i, j, h)
    requires k < |c.residues| && Position(c, b, k) == i + h && k' < |c.residues| && Position(c, b', k') == j + h
    requires b < PartSize(c, |t|, k) || b' < PartSize(c, |t|, k')
    ensures SampleRank(c, r, b, k) < SampleRank(c, r, b', k') <==> SufLess(t, i, j)
  {
    SampleBound(c, |t|, b, k);
    SampleBound(c, |t|, b', k');
    RankOfSample(c, t, r, b, k);
    RankOfSample(c, t, r, b', k');
    if b < PartSize(c, |t|, k) && b' < PartSize(c, |t|, k') {
      SkipEqual(t, i, j, h);
      RanksInOrder(c, t, r, b, k, b', k');
    } else if b < PartSize(c, |t|, k) {
      EndsFirst(t, i, j, h);
    } else {
      AgreeSymmetric(t, i, j, h);
      EndsFirst(t, j, i, h);
    }
  }

  lemma RankOfSample(c: Cover, t: Text, r: seq<nat>, b: nat, k: nat)
    requires ValidCover(c) && |t| > 0 && RanksSamples(c, t, r) && k < |c.residues|
    ensures SampleRank(c, r, b, k) > 0 <==> b < PartSize(c, |t|, k)
  {
    var m := SampleNumber(c, b, k);
    SampleNumbers(c, |t|, b, k, m);
    if m < |r| { assert r[m] > 0; }
  }

  lemma RankIs(c: Cover, r: seq<nat>, b: nat, k: nat, m: nat)
    requires m == b * |c.residues| + k && m < |r|
    ensures SampleRank(c, r, b, k) == r[m]
  {
  }

  lemma NumberedRanksInOrder(c: Cover, t: Text, r: seq<nat>, m: nat, m': nat)
    requires ValidCover(c) && RanksSamples(c, t, r) && m < |r| && m' < |r|
    ensures r[m] < r[m'] <==> SufLess(t, SamplePosition(c, m), SamplePosition(c, m'))
  {
    assert RankInOrder(c, t, r, m, m');
  }

  lemma RanksInOrder(c: Cover, t: Text, r: seq<nat>, b: nat, k: nat, b': nat, k': nat)
    requires ValidCover(c) && |t| > 0 && RanksSamples(c, t, r) && k < |c.residues| && k' < |c.residues|
    requires b < PartSize(c, |t|, k) && b' < PartSize(c, |t|, k')
    ensures SampleRank(c, r, b, k) < SampleRank(c, r, b', k')
       <==> SufLess(t, Position(c, b, k), Position(c, b', k'))
  {
    var m := SampleOf(c, |t|, b, k);
    var m' := SampleOf(c, |t|, b', k');
    RankIs(c, r, b, k, m);
    RankIs(c, r, b', k', m');
    NumberedRanksInOrder(c, t, r, m, m');
  }

  /** Where neither position has a sample, the longer suffix is the larger one. */
  lemma NoRanksDecide(c: Cover, t: Text, i: nat, j: nat, h: nat, p: nat, q: nat)
    requires ValidCover(c) && i < |t| && j < |t| && i != j && Agree(t, i, j, h) && h == Entry(c, i, j).depth
    requires p == i + h && q == j + h && NoSampleAt(c, |t|, p) && NoSampleAt(c, |t|, q)
    ensures !(SufLess(t, i, j) && !(j < i && Blind(c, t, j, i)))
  {
    AgreeSymmetric(t, i, j, h);
    if i < j { EndsFirst(t, i, j, h); }
  }

  /** Where one of the positions has a sample, the pair is not blind. */
  lemma SampleSees(c: Cover, t: Text, i: nat, j: nat, h: nat, p: nat, q: nat)
    requires ValidCover(c) && i < |t| && j < |t| && h == Entry(c, i, j).depth
    requires p == i + h && q == j + h && !(NoSampleAt(c, |t|, p) && NoSampleAt(c, |t|, q))
    ensures !(j < i && Blind(c, t, j, i))
  {
  }

  lemma FieldRanksDecide(c: Cover, t: Text, r: seq<nat>, i: nat, j: nat, p: Params)
    requires ValidCover(c) && RanksSamples(c, t, r) && i < |t| && j < |t| && i != j && p == Entry(c, i, j)
    requires Agree(t, i, j, p.depth)
    ensures RankAt(FragmentFor(c, t, r, i), p.first) < RankAt(FragmentFor(c, t, r, j), p.second)
       <==> SufLess(t, i, j) && !(j < i && Blind(c, t, j, i))
  {
    assert ValidRow(c, i % c.period) && ValidRow(c, j % c.period) && ValidEntry(c, i % c.period, j % c.period);
    var b, k := FragmentRank(c, t, r, i, i % c.period, p.first, p.depth);
    var b', k' := FragmentRank(c, t, r, j, j % c.period, p.second, p.depth);
    RanksOfFields(c, t, r, i, j, p.depth, b, k, b', k');
  }

  lemma RanksOfFields(c: Cover, t: Text, r: seq<nat>, i: nat, j: nat, h: nat, b: nat, k: nat, b': nat, k': nat)
    requires ValidCover(c) && RanksSamples(c, t, r) && i < |t| && j < |t| && i != j && h == Entry(c, i, j).depth
          && Agree(t, i, j, h)
    requires k < |c.residues| && Position(c, b, k) == i + h && k' < |c.residues| && Position(c, b', k') == j + h
    ensures SampleRank(c, r, b, k) < SampleRank(c, r, b', k') <==> SufLess(t, i, j) && !(j < i && Blind(c, t, j, i))
  {
    NoSampleIs(c, |t|, b, k);
    NoSampleIs(c, |t|, b', k');
    if b < PartSize(c, |t|, k) || b' < PartSize(c, |t|, k') {
      SampleSees(c, t, i, j, h, i + h, j + h);
      RanksDecide(c, t, r, i, j, h, b, k, b', k');
    } else {
      NoRanksDecide(c, t, i, j, h, i + h, j + h);
      RankOfSample(c, t, r, b, k);
      RankOfSample(c, t, r, b', k');
    }
  }

  /** The comparison of two fragments is the comparison of their suffixes, unless it is blind. */
  lemma FragmentOrder(c: Cover, t: Text, r: seq<nat>, i: nat, j: nat)
    requires ValidCover(c) && RanksSamples(c, t, r) && i < |t| && j < |t| && i != j
    ensures CompareFrom(FragmentFor(c, t, r, i), FragmentFor(c, t, r, j), Entry(c, i, j), 0)
       <==> SufLess(t, i, j) && !(j < i && Blind(c, t, j, i))
  {
    var p := Entry(c, i, j);
    FragmentsCompare(c, t, r, i, j);
    if Agree(t, i, j, p.depth) {
      FieldRanksDecide(c, t, r, i, j, p);
    } else if Agree(t, j, i, p.depth) {
      AgreeSymmetric(t, j, i, p.depth);
    }
  }

  lemma FragmentsCompare(c: Cover, t: Text, r: seq<nat>, i: nat, j: nat)
    requires ValidCover(c)
    ensures var x, y, p := FragmentFor(c, t, r, i), FragmentFor(c, t, r, j), Entry(c, i, j);
            CompareFrom(x, y, p, 0) <==>
            if Agree(t, i, j, p.depth) then RankAt(x, p.first) < RankAt(y, p.second) else SufLess(t, i, j)
  {
    var x, y, p := FragmentFor(c, t, r, i), FragmentFor(c, t, r, j), Entry(c, i, j);
    assert ValidRow(c, i % c.period) && ValidRow(c, j % c.period) && ValidEntry(c, i % c.period, j % c.period);
    forall d: nat | d < p.depth ensures TextAt(x, d) == At(t, i + d) && TextAt(y, d) == At(t, j + d) {
      FragmentText(c, t, r, i, d);
      FragmentText(c, t, r, j, d);
    }
    CompareDecides(t, i, j, x, y, p, 0);
  }

  lemma SameFragment(c: Cover, x: Fragment, p: Params, d: nat)
    requires p.first == p.second
    ensures !CompareFrom(x, x, p, d)
    decreases p.depth - d
  {
  }

  /** `less` compares the fragments of the text like their suffixes. */
  ghost predicate ComparesSuffixes(c: Cover, t: Text, r: seq<nat>, less: (Fragment, Fragment) -> bool)
    requires ValidCover(c)
  {
    forall i: nat, j: nat | i < |t| && j < |t| ::
      less(FragmentFor(c, t, r, i), FragmentFor(c, t, r, j)) <==> SufLess(t, i, j)
  }

  lemma LessIsCompare(c: Cover, t: Text, r: seq<nat>, i: nat, j: nat)
    requires ValidCover(c) && forall a | 0 <= a < c.period :: |c.params[a]| == c.period
    ensures FragmentLess(c)(FragmentFor(c, t, r, i), FragmentFor(c, t, r, j))
       <==> CompareFrom(FragmentFor(c, t, r, i), FragmentFor(c, t, r, j), Entry(c, i, j), 0)
    ensures !FragmentLess(c)(FragmentFor(c, t, r, i), FragmentFor(c, t, r, i))
  {
    assert ValidRow(c, i % c.period) && ValidEntry(c, i % c.period, i % c.period);
    SameFragment(c, FragmentFor(c, t, r, i), Entry(c, i, i), 0);
  }

  lemma SeenPair(c: Cover, t: Text, r: seq<nat>, i: nat, j: nat)
    requires ValidCover(c) && RanksSamples(c, t, r) && i < |t| && j < |t|
          && forall a | 0 <= a < c.period :: |c.params[a]| == c.period
    ensures FragmentLess(c)(FragmentFor(c, t, r, i), FragmentFor(c, t, r, j))
       <==> SufLess(t, i, j) && !(j < i && Blind(c, t, j, i))
  {
    LessIsCompare(c, t, r, i, j);
    if i == j { SufIrreflexive(t, i); } else { FragmentOrder(c, t, r, i, j); }
  }

  lemma BlindIsWrong(c: Cover, t: Text, i: nat, j: nat)
    requires ValidCover(c) && i < j < |t| && Blind(c, t, i, j)
    ensures SufLess(t, j, i) && t[|t| - 1] == 0
  {
    EndsFirst(t, i, j, Entry(c, j, i).depth);
    BothEnd(t, i, j, Entry(c, j, i).depth);
  }

  lemma ParamsSized(c: Cover)
    requires ValidCover(c)
    ensures forall a | 0 <= a < c.period :: |c.params[a]| == c.period
  {
    forall a | 0 <= a < c.period ensures |c.params[a]| == c.period { assert ValidRow(c, a); }
  }

  /** With right sample ranks, the comparison is the suffix order exactly when no pair is blind. */
  lemma ComparisonIsExact(c: Cover, t: Text, r: seq<nat>)
    requires ValidCover(c) && RanksSamples(c, t, r) && forall a | 0 <= a < c.period :: |c.params[a]| == c.period
    ensures ComparesSuffixes(c, t, r, FragmentLess(c)) <==> Sees(c, t)
  {
    forall i: nat, j: nat | i < |t| && j < |t|
      ensures FragmentLess(c)(FragmentFor(c, t, r, i), FragmentFor(c, t, r, j))
         <==> SufLess(t, i, j) && !(j < i && Blind(c, t, j, i)) {
      SeenPair(c, t, r, i, j);
    }
    if ComparesSuffixes(c, t, r, FragmentLess(c)) {
      forall i: nat, j: nat | i < j < |t| ensures !Blind(c, t, i, j) {
        if Blind(c, t, i, j) { BlindIsWrong(c, t, i, j); }
      }
    }
  }

  lemma FragmentsAreOrdered(c: Cover, t: Text, r: seq<nat>, s: seq<Fragment>, less: (Fragment, Fragment) -> bool)
    requires ValidCover(c) && ComparesSuffixes(c, t, r, less) && forall x | x in s :: Proper(c, t, r, x)
    ensures StrictWeakOrderOn(less, s)
  {
    forall x, y | x in s && y in s ensures less(x, y) <==> SufLess(t, x.index, y.index) {
      assert Proper(c, t, r, x) && Proper(c, t, r, y);
    }
    forall x, y, z | x in s && y in s && z in s
      ensures !less(x, x) && (less(x, y) && less(y, z) ==> less(x, z)) && (less(x, z) ==> less(x, y) || less(y, z)) {
      assert Proper(c, t, r, x) && Proper(c, t, r, y) && Proper(c, t, r, z);
      SufIsOrder(t, x.index, y.index, z.index);
    }
  }

  lemma IndexesArePerm(c: Cover, t: Text, r: seq<nat>, s: seq<Fragment>)
    requires ValidCover(c) && Holds(c, t, r, s, _ => true)
    ensures IsPerm(Map<Fragment, nat>(FragmentIndex, s), |t|)
  {
    var p := Map<Fragment, nat>(FragmentIndex, s);
    forall k | 0 <= k < |p| ensures p[k] < |t| { assert Proper(c, t, r, s[k]); }
    forall i: nat | i < |t| ensures i in p {
      var k := IndexIn(FragmentFor(c, t, r, i), s);
      assert p[k] == i;
    }
    DistinctItems(p);
    assert Items(p) == Below(|t|);
  }

  /** Sorting the fragments of a text by any comparison that agrees with the suffixes gives the suffix array. */
  lemma SortedFragments(c: Cover, t: Text, r: seq<nat>, s: seq<Fragment>, less: (Fragment, Fragment) -> bool)
    requires ValidCover(c) && Holds(c, t, r, s, _ => true) && ComparesSuffixes(c, t, r, less)
    ensures IsSuffixArray(t, Map<Fragment, nat>(FragmentIndex, Sort(s, less)))
  {
    var q := Sort(s, less);
    var sa := Map<Fragment, nat>(FragmentIndex, q);
    FragmentsAreOrdered(c, t, r, s, less);
    IndexesArePerm(c, t, r, s);
    MapMultiset<Fragment, nat>(FragmentIndex, s, q);
    PermOfMultiset(Map<Fragment, nat>(FragmentIndex, s), sa, |t|);
    SameItems(s, q);
    forall a, b | 0 <= a < b < |t| ensures SufLess(t, sa[a], sa[b]) {
      assert Proper(c, t, r, q[a]) && Proper(c, t, r, q[b]) && !less(q[b], q[a]);
      SufTotal(t, sa[a], sa[b]);
    }
  }

  /** From ranks of the samples, the merge produces the suffix array. */
  lemma MergeIsSuffixArray(c: Cover, t: Text, r: seq<nat>)
    requires ValidCover(c) && TwoBlocks(c, |t|) && Sees(c, t) && RanksSamples(c, t, r)
    ensures IsSuffixArray(t, Merge(c, t, r))
  {
    BlocksAreFirstPart(c, |t|);
    AtLeastTwoBlocks(c, |t|);
    FragmentsCoverText(c, t, r);
    ParamsSized(c);
    ComparisonIsExact(c, t, r);
    SortedFragments(c, t, r, Fragments(c, t, r), FragmentLess(c));
  }

  /** On texts too short for two blocks there are no fragments. */
  lemma NoFragments(c: Cover, t: Text, r: seq<nat>)
    requires ValidCover(c) && !TwoBlocks(c, |t|) && |r| <= |Samples(c, |t|)|
    ensures Merge(c, t, r) == []
  {
    FewBlocks(c, |t|, |r|);
    forall a: nat | a < c.period ensures ValidRow(c, a) { }
    if |Blocks(c, t, r)| > 0 { NoPairsNoFragments(c, |t|, c.period); }
  }

  lemma FewBlocks(c: Cover, n: nat, samples: nat)
    requires ValidCover(c) && !TwoBlocks(c, n) && samples <= |Samples(c, n)|
    ensures BlockCount(c, n, samples) <= 1
  {
    if n > 0 { BlocksAreFirstPart(c, n); }
    SampleBound(c, n, 1, 0);
    MoreBlocks(samples, |Samples(c, n)|, |c.residues|);
  }

  lemma MoreBlocks(a: nat, b: nat, d: nat)
    requires a <= b && d > 0
    ensures (a + d - 1) / d <= (b + d - 1) / d
  {
    var x := a + d - 1;
    assert x == (x / d) * d + x % d;
    QuotientAtLeast(b + d - 1, d, x / d);
  }

  lemma {:induction false} NoPairsNoFragments(c: Cover, n: nat, a: nat)
    requires a <= |c.rankFields| && a <= |c.textLengths|
    ensures UnionBelow(c, n, [], a) == []
  {
    if a > 0 { NoPairsNoFragments(c, n, a - 1); }
  }

  /** With right sample ranks and no blind pair, the merge is right exactly on the empty text and on texts
      long enough for two blocks. */
  lemma MergeIsRight(c: Cover, t: Text, r: seq<nat>)
    requires ValidCover(c) && Sees(c, t) && RanksSamples(c, t, r)
    ensures IsSuffixArray(t, Merge(c, t, r)) <==> t == [] || TwoBlocks(c, |t|)
  {
    if TwoBlocks(c, |t|) {
      MergeIsSuffixArray(c, t, r);
    } else {
      NoFragments(c, t, r);
      NothingSorted(t);
    }
  }

  lemma NothingSorted(t: Text)
    ensures IsSuffixArray(t, []) <==> t == []
  {
  }

  // ---------------------------------------------------------------- when no pair is blind

  /** Comparisons near the end of the text never come down to two positions without a rank. */
  ghost predicate Shallow(c: Cover)
    requires ValidCover(c)
  {
    forall a: nat, b: nat | a < c.period && b < c.period :: ShallowEntry(c, a, b)
  }

  /** At most two characters are compared; two neighbours are told apart by a sample behind the second of them. */
  ghost predicate ShallowEntry(c: Cover, a: nat, b: nat)
    requires ValidCover(c) && a < c.period && b < c.period
  {
    assert ValidRow(c, b);
    && c.params[b][a].depth <= 2
    && (c.params[b][a].depth == 2 && (a + 1) % c.period == b ==> (a + 2) % c.period != c.residues[|c.residues| - 1])
  }

  /** A text that does not end with the padding value has no blind pair. */
  lemma ClearEndSees(c: Cover, t: Text)
    requires ValidCover(c) && t != [] && t[|t| - 1] > 0
    ensures Sees(c, t)
  {
    forall i: nat, j: nat | i < j < |t| ensures !Blind(c, t, i, j) {
      if Blind(c, t, i, j) { BlindIsWrong(c, t, i, j); }
    }
  }

  /** Shallow tables have no blind pairs on any text. */
  lemma ShallowSees(c: Cover, t: Text)
    requires ValidCover(c) && Shallow(c)
    ensures Sees(c, t)
  {
    forall i: nat, j: nat | i < j < |t| ensures !Blind(c, t, i, j) { ShallowPairSees(c, t, i, j); }
  }

  lemma ShallowPairSees(c: Cover, t: Text, i: nat, j: nat)
    requires ValidCover(c) && Shallow(c) && i < j < |t|
    ensures !Blind(c, t, i, j)
  {
    assert ValidRow(c, j % c.period) && ShallowEntry(c, i % c.period, j % c.period);
    if j == i + 1 && Entry(c, j, i).depth == 2 { ShallowNeighbourSees(c, t, i, j, i + 2); }
  }

  lemma ShallowNeighbourSees(c: Cover, t: Text, i: nat, j: nat, p: nat)
    requires ValidCover(c) && Shallow(c) && j == i + 1 && p == i + 2 && j < |t| && Entry(c, j, i).depth == 2
    ensures !NoSampleAt(c, |t|, p)
  {
    assert ValidRow(c, j % c.period) && ShallowEntry(c, i % c.period, j % c.period);
    AddRemainder(i, 1, c.period);
    AddRemainder(i, 2, c.period);
  }
}
