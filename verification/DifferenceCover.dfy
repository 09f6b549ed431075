/**
 Difference covers: the tables of DC3 and DC7, the sample positions, and their numbering.

 `period` is 3 or 7.  Sample positions are those whose residue is one of `residues`, together with the
 text length itself when its residue is one of them but not the last; that extra sample separates the
 parts of the recursion string.  Samples are numbered in text order; sample `m` is in block m / |residues|
 and in part m % |residues|.
 */
module DifferenceCover {
  import opened Arithmetic
  import opened Lists

  /** Of two fragments, compare `depth` characters, then rank field `first` with rank field `second`. */
  datatype Params = Params(depth: nat, first: nat, second: nat)

  /** The rank of the sample of part `part` in the fragment's own block (0) or the next one (1). */
  datatype RankField = RankField(block: nat, part: nat)

  datatype Cover = Cover(period: nat, residues: seq<nat>, rankFields: seq<seq<RankField>>, textLengths: seq<nat>,
                         params: seq<seq<Params>>)

  ghost predicate ValidResidues(c: Cover) {
    && 2 <= |c.residues| <= c.period
    && (forall k | 0 <= k < |c.residues| :: c.residues[k] < c.period)
    && (forall j, k | 0 <= j < k < |c.residues| :: c.residues[j] < c.residues[k])
  }

  // ---------------------------------------------------------------- samples

  function SamplesBelow(c: Cover, i: nat): seq<nat>
    requires c.period > 0
  {
    if i == 0 then [] else
      SamplesBelow(c, i - 1) + (if (i - 1) % c.period in c.residues then [i - 1] else [])
  }

  /** The sample positions of a text of length `n`, in text order; an empty text has no window to emit one. */
  function Samples(c: Cover, n: nat): seq<nat>
    requires c.period > 0 && c.residues != []
  {
    SamplesBelow(c, n) + (if n > 0 && n % c.period in c.residues[..|c.residues| - 1] then [n] else [])
  }

  function Position(c: Cover, b: nat, k: nat): nat
    requires k < |c.residues|
  {
    b * c.period + c.residues[k]
  }

  /** The number of samples in part `k`. */
  function PartSize(c: Cover, n: nat, k: nat): nat
    requires c.period > 0 && k < |c.residues|
  {
    n / c.period
    + (if (if k + 1 < |c.residues| then n % c.period >= c.residues[k] else n % c.period > c.residues[k]) then 1 else 0)
  }

  function PartStart(c: Cover, n: nat, k: nat): nat
    requires c.period > 0 && k <= |c.residues|
  {
    if k == 0 then 0 else PartStart(c, n, k - 1) + PartSize(c, n, k - 1)
  }

  /** The size of the recursive subproblem. */
  function SubproblemSize(c: Cover, n: nat): nat
    requires c.period > 0
  {
    PartStart(c, n, |c.residues|)
  }

  /** The place of `x` within its part of the recursion string. */
  function PlaceInPart(c: Cover, n: nat, x: nat, k: nat): nat
    requires c.period > 0 && k < |c.residues| && PartStart(c, n, k) <= x
    decreases |c.residues| - k
  {
    if k + 1 == |c.residues| || x < PartStart(c, n, k + 1) then x - PartStart(c, n, k) else PlaceInPart(c, n, x, k + 1)
  }

  // ---------------------------------------------------------------- numbering

  /** `j` of the ascending numbers are below `r`. */
  ghost predicate Splits(s: seq<nat>, r: nat, j: nat) {
    j <= |s| && (forall k | 0 <= k < j :: s[k] < r) && (forall k | j <= k < |s| :: s[k] >= r)
  }

  /** The number of whole periods before `i`. */
  ghost function FullBlocks(c: Cover, i: nat): nat
    requires c.period > 0
  {
    i / c.period
  }

  /** How many residues are below `r`. */
  ghost function ResiduesBelow(s: seq<nat>, r: nat): (j: nat)
    requires forall j, k | 0 <= j < k < |s| :: s[j] < s[k]
    ensures Splits(s, r, j)
  {
    if s == [] then 0
    else if s[|s| - 1] < r then |s|
    else ResiduesBelow(s[..|s| - 1], r)
  }

  function BlockOf(c: Cover, m: nat): nat
    requires c.residues != []
  {
    m / |c.residues|
  }

  function PartOf(c: Cover, m: nat): (k: nat)
    requires c.residues != []
    ensures k < |c.residues|
  {
    m % |c.residues|
  }

  /** The position of sample `m`. */
  function SamplePosition(c: Cover, m: nat): nat
    requires c.residues != []
  {
    Position(c, BlockOf(c, m), PartOf(c, m))
  }

  lemma PositionParts(c: Cover, b: nat, k: nat)
    requires ValidResidues(c) && k < |c.residues|
    ensures Position(c, b, k) / c.period == b && Position(c, b, k) % c.period == c.residues[k]
  {
    DivisionUnique(Position(c, b, k), b, c.residues[k], c.period);
  }

  lemma NumberParts(c: Cover, b: nat, k: nat)
    requires k < |c.residues|
    ensures (b * |c.residues| + k) / |c.residues| == b && (b * |c.residues| + k) % |c.residues| == k
  {
    DivisionUnique(b * |c.residues| + k, b, k, |c.residues|);
  }

  lemma SplitIsUnique(s: seq<nat>, r: nat, j: nat)
    requires (forall j, k | 0 <= j < k < |s| :: s[j] < s[k]) && Splits(s, r, j)
    ensures ResiduesBelow(s, r) == j
  {
    var j' := ResiduesBelow(s, r);
    assert j < |s| ==> s[j] >= r;
    assert j' < |s| ==> s[j'] >= r;
  }

  lemma ResidueIndex(c: Cover, r: nat)
    requires ValidResidues(c) && r in c.residues
    ensures var j := ResiduesBelow(c.residues, r); j < |c.residues| && c.residues[j] == r
  {
    var k := IndexIn(r, c.residues);
    SplitIsUnique(c.residues, r, k);
  }

  lemma NextResidue(c: Cover, r: nat)
    requires ValidResidues(c) && r < c.period
    ensures ResiduesBelow(c.residues, r + 1) == ResiduesBelow(c.residues, r) + (if r in c.residues then 1 else 0)
    ensures r + 1 == c.period ==> ResiduesBelow(c.residues, r + 1) == |c.residues|
  {
    if r in c.residues { NextAtResidue(c, r); } else { NextPastResidue(c, r); }
    if r + 1 == c.period { SplitIsUnique(c.residues, r + 1, |c.residues|); }
  }

  lemma NextAtResidue(c: Cover, r: nat)
    requires ValidResidues(c) && r in c.residues
    ensures ResiduesBelow(c.residues, r + 1) == ResiduesBelow(c.residues, r) + 1
  {
    ResidueIndex(c, r);
    SplitIsUnique(c.residues, r + 1, ResiduesBelow(c.residues, r) + 1);
  }

  lemma NextPastResidue(c: Cover, r: nat)
    requires ValidResidues(c) && r !in c.residues
    ensures ResiduesBelow(c.residues, r + 1) == ResiduesBelow(c.residues, r)
  {
    var j := ResiduesBelow(c.residues, r);
    forall k | j <= k < |c.residues| ensures c.residues[k] >= r + 1 { assert c.residues[k] in c.residues; }
    SplitIsUnique(c.residues, r + 1, j);
  }

  lemma NoResidueBelowZero(c: Cover)
    requires ValidResidues(c)
    ensures ResiduesBelow(c.residues, 0) == 0
  {
    SplitIsUnique(c.residues, 0, 0);
  }

  ghost predicate ListsSamples(c: Cover, s: seq<nat>) {
    c.residues != [] && forall m: nat | m < |s| :: SampleIs(c, m, s[m])
  }

  ghost predicate SampleIs(c: Cover, m: nat, p: nat)
    requires c.residues != []
  {
    p == SamplePosition(c, m)
  }

  lemma SampleIsAt(c: Cover, p: nat)
    requires ValidResidues(c) && p % c.period in c.residues
    ensures SampleIs(c, CountBelow(c, p), p)
  {
    var q, j := FullBlocks(c, p), ResiduesBelow(c.residues, p % c.period);
    ResidueIndex(c, p % c.period);
    NumberParts(c, q, j);
  }

  /** The number of samples of one residue class or another below `i`. */
  ghost function CountBelow(c: Cover, i: nat): nat
    requires ValidResidues(c)
  {
    FullBlocks(c, i) * |c.residues| + ResiduesBelow(c.residues, i % c.period)
  }

  lemma NextQuotient(p: nat, v: nat)
    requires v > 0
    ensures p % v + 1 < v ==> (p + 1) / v == p / v && (p + 1) % v == p % v + 1
    ensures p % v + 1 == v ==> (p + 1) / v == p / v + 1 && (p + 1) % v == 0
  {
    assert p == (p / v) * v + p % v;
    if p % v + 1 < v {
      DivisionUnique(p + 1, p / v, p % v + 1, v);
    } else {
      Distribute(p / v, 1, v);
      DivisionUnique(p + 1, p / v + 1, 0, v);
    }
  }

  lemma CountNext(c: Cover, p: nat, i: nat)
    requires ValidResidues(c) && i == p + 1
    ensures CountBelow(c, i) == CountBelow(c, p) + (if p % c.period in c.residues then 1 else 0)
  {
    NextQuotient(p, c.period);
    NextResidue(c, p % c.period);
    NoResidueBelowZero(c);
    Distribute(FullBlocks(c, p), 1, |c.residues|);
  }

  lemma CountZero(c: Cover)
    requires ValidResidues(c)
    ensures CountBelow(c, 0) == 0
  {
    DivisionUnique(0, 0, 0, c.period);
    NoResidueBelowZero(c);
  }

  lemma AppendSample(c: Cover, s: seq<nat>, p: nat)
    requires ListsSamples(c, s) && SampleIs(c, |s|, p)
    ensures ListsSamples(c, s + [p])
  {
  }

  lemma {:induction false} SamplesBelowAreNumbered(c: Cover, i: nat)
    requires ValidResidues(c)
    ensures ListsSamples(c, SamplesBelow(c, i)) && |SamplesBelow(c, i)| == CountBelow(c, i)
    decreases i
  {
    if i == 0 {
      CountZero(c);
    } else {
      var p := i - 1;
      SamplesBelowAreNumbered(c, p);
      CountNext(c, p, i);
      if p % c.period in c.residues {
        SampleIsAt(c, p);
        AppendSample(c, SamplesBelow(c, p), p);
      }
    }
  }

  /** The number of samples in the last, partial block. */
  ghost function Extra(c: Cover, n: nat): nat
    requires ValidResidues(c)
  {
    ResiduesBelow(c.residues, n % c.period) + (if n % c.period in c.residues[..|c.residues| - 1] then 1 else 0)
  }

  lemma ExtraFits(c: Cover, n: nat)
    requires ValidResidues(c)
    ensures Extra(c, n) <= |c.residues|
    ensures n % c.period in c.residues[..|c.residues| - 1] ==> n % c.period in c.residues
  {
    if n % c.period in c.residues[..|c.residues| - 1] { ResidueIndex(c, n % c.period); }
  }

  lemma PartSizeClosed(c: Cover, n: nat, k: nat)
    requires ValidResidues(c) && k < |c.residues|
    ensures PartSize(c, n, k) == FullBlocks(c, n) + (if k < Extra(c, n) then 1 else 0)
  {
    var r, front := n % c.period, c.residues[..|c.residues| - 1];
    assert k < |front| ==> front[k] == c.residues[k];
    if r in front {
      var i := IndexIn(r, front);
      SplitIsUnique(c.residues, r, i);
    }
  }

  lemma SamplesAreNumbered(c: Cover, n: nat)
    requires ValidResidues(c) && n > 0
    ensures ListsSamples(c, Samples(c, n)) && |Samples(c, n)| == FullBlocks(c, n) * |c.residues| + Extra(c, n)
  {
    SamplesBelowAreNumbered(c, n);
    ExtraFits(c, n);
    if n % c.period in c.residues[..|c.residues| - 1] { SampleIsAt(c, n); }
  }

  lemma {:induction false} PartStartClosed(c: Cover, n: nat, k: nat)
    requires ValidResidues(c) && k <= |c.residues|
    ensures PartStart(c, n, k) == k * FullBlocks(c, n) + (if k < Extra(c, n) then k else Extra(c, n))
    decreases k
  {
    if k > 0 {
      PartStartClosed(c, n, k - 1);
      PartSizeClosed(c, n, k - 1);
      Distribute(k - 1, 1, FullBlocks(c, n));
    }
  }

  lemma BlockBound(b: nat, k: nat, blocks: nat, extra: nat, d: nat)
    requires k < d && extra <= d
    ensures b * d + k < blocks * d + extra <==> b < blocks + (if k < extra then 1 else 0)
  {
    if b < blocks {
      ProductMonotone(b + 1, blocks, d);
      Distribute(b, 1, d);
    } else if b > blocks {
      ProductMonotone(blocks + 1, b, d);
      Distribute(blocks, 1, d);
    }
  }

  /** The recursive subproblem has one place for every sample. */
  lemma SubproblemHoldsSamples(c: Cover, n: nat)
    requires ValidResidues(c) && n > 0
    ensures |Samples(c, n)| == SubproblemSize(c, n)
  {
    SamplesAreNumbered(c, n);
    ExtraFits(c, n);
    PartStartClosed(c, n, |c.residues|);
    Commute(|c.residues|, FullBlocks(c, n));
  }

  lemma Commute(a: nat, b: nat)
    ensures a * b == b * a
  {
  }

  /** The numbers of samples are those whose block has a sample in their part. */
  lemma SampleNumbers(c: Cover, n: nat, b: nat, k: nat, m: nat)
    requires ValidResidues(c) && n > 0 && k < |c.residues| && m == b * |c.residues| + k
    ensures m < |Samples(c, n)| <==> b < PartSize(c, n, k)
  {
    SamplesAreNumbered(c, n);
    ExtraFits(c, n);
    PartSizeClosed(c, n, k);
    BlockBound(b, k, FullBlocks(c, n), Extra(c, n), |c.residues|);
  }

  // ---------------------------------------------------------------- three orders of the samples

  /** The place of sample `m` in the recursion string: parts one after the other. */
  function SamplePlace(c: Cover, n: nat, m: nat): nat
    requires c.period > 0 && c.residues != []
  {
    PartStart(c, n, PartOf(c, m)) + BlockOf(c, m)
  }

  /** Places and positions of samples by block and part. */
  ghost predicate InPart(c: Cover, n: nat, m: nat, b: nat, k: nat)
    requires ValidResidues(c)
  {
    && k < |c.residues| && b < PartSize(c, n, k) && m == b * |c.residues| + k
    && b == BlockOf(c, m) && k == PartOf(c, m)
  }

  lemma SampleInPart(c: Cover, n: nat, m: nat)
    requires ValidResidues(c) && m < |Samples(c, n)|
    ensures InPart(c, n, m, BlockOf(c, m), PartOf(c, m))
  {
    SampleNumbers(c, n, BlockOf(c, m), PartOf(c, m), m);
  }

  lemma {:induction false} PartStartAscends(c: Cover, n: nat, j: nat, k: nat)
    requires ValidResidues(c) && j <= k <= |c.residues|
    ensures PartStart(c, n, j) <= PartStart(c, n, k)
    decreases k
  {
    if j < k { PartStartAscends(c, n, j, k - 1); }
  }

  lemma BlockPartOrder(b: nat, k: nat, b': nat, k': nat, d: nat)
    requires k < d && k' < d
    ensures b * d + k < b' * d + k' <==> b < b' || (b == b' && k < k')
  {
    if b < b' {
      ProductMonotone(b + 1, b', d);
      Distribute(b, 1, d);
    } else if b' < b {
      ProductMonotone(b' + 1, b, d);
      Distribute(b', 1, d);
    }
  }

  /** Places order the samples by part, then by block. */
  lemma PlaceOrder(c: Cover, n: nat, m: nat, b: nat, k: nat, m': nat, b': nat, k': nat)
    requires ValidResidues(c) && InPart(c, n, m, b, k) && InPart(c, n, m', b', k')
    ensures SamplePlace(c, n, m) < SamplePlace(c, n, m') <==> k < k' || (k == k' && b < b')
    ensures SamplePlace(c, n, m) == SamplePlace(c, n, m') <==> m == m'
  {
    var s, s' := k + 1, k' + 1;
    assert PartStart(c, n, s) == PartStart(c, n, k) + PartSize(c, n, k);
    assert PartStart(c, n, s') == PartStart(c, n, k') + PartSize(c, n, k');
    if k < k' { PartStartAscends(c, n, s, k'); }
    if k' < k { PartStartAscends(c, n, s', k); }
  }

  lemma PlaceBound(c: Cover, n: nat, m: nat)
    requires ValidResidues(c) && m < |Samples(c, n)|
    ensures SamplePlace(c, n, m) < |Samples(c, n)|
  {
    var k := PartOf(c, m);
    SampleInPart(c, n, m);
    SubproblemHoldsSamples(c, n);
    PartStartAscends(c, n, k + 1, |c.residues|);
  }

  lemma PositionOrder(c: Cover, b: nat, k: nat, b': nat, k': nat)
    requires ValidResidues(c) && k < |c.residues| && k' < |c.residues|
    ensures Position(c, b, k) < Position(c, b', k') <==> b < b' || (b == b' && k < k')
  {
    BlockPartOrder(b, c.residues[k], b', c.residues[k'], c.period);
    if k < k' { assert c.residues[k] < c.residues[k']; }
    if k' < k { assert c.residues[k'] < c.residues[k]; }
  }

  /** Samples are numbered in text order. */
  lemma SamplesAscend(c: Cover, m: nat, m': nat)
    requires ValidResidues(c)
    ensures SamplePosition(c, m) < SamplePosition(c, m') <==> m < m'
  {
    PositionOrder(c, BlockOf(c, m), PartOf(c, m), BlockOf(c, m'), PartOf(c, m'));
    BlockPartOrder(BlockOf(c, m), PartOf(c, m), BlockOf(c, m'), PartOf(c, m'), |c.residues|);
  }

  /** The order that lays out the recursion string: by residue, then by position. */
  predicate ByResidue(c: Cover, i: nat, j: nat)
    requires c.period > 0
  {
    if i % c.period == j % c.period then i < j else i % c.period < j % c.period
  }

  lemma ResidueOrder(c: Cover, n: nat, m: nat, b: nat, k: nat, m': nat, b': nat, k': nat)
    requires ValidResidues(c) && InPart(c, n, m, b, k) && InPart(c, n, m', b', k')
    ensures ByResidue(c, Position(c, b, k), Position(c, b', k')) <==> k < k' || (k == k' && b < b')
  {
    PositionParts(c, b, k);
    PositionParts(c, b', k');
    PositionOrder(c, b, k, b', k');
    if k < k' { assert c.residues[k] < c.residues[k']; }
    if k' < k { assert c.residues[k'] < c.residues[k]; }
  }

  lemma ByResidueIsPlaceOrder(c: Cover, n: nat, m: nat, m': nat)
    requires ValidResidues(c) && m < |Samples(c, n)| && m' < |Samples(c, n)|
    ensures ByResidue(c, SamplePosition(c, m), SamplePosition(c, m'))
       <==> SamplePlace(c, n, m) < SamplePlace(c, n, m')
  {
    SampleInPart(c, n, m);
    SampleInPart(c, n, m');
    PlaceOrder(c, n, m, BlockOf(c, m), PartOf(c, m), m', BlockOf(c, m'), PartOf(c, m'));
    ResidueOrder(c, n, m, BlockOf(c, m), PartOf(c, m), m', BlockOf(c, m'), PartOf(c, m'));
  }

  /** The order that interleaves places of the recursion string: by place in the part, then by place. */
  predicate ByPlaceInPart(c: Cover, n: nat, x: nat, y: nat)
    requires c.period > 0 && c.residues != []
  {
    var i, j := PlaceInPart(c, n, x, 0), PlaceInPart(c, n, y, 0);
    i < j || (i == j && x < y)
  }

  lemma {:induction false} PlaceInPartFrom(c: Cover, n: nat, b: nat, k: nat, j: nat)
    requires ValidResidues(c) && j <= k < |c.residues| && b < PartSize(c, n, k)
    requires PartStart(c, n, j) <= PartStart(c, n, k) + b
    ensures PlaceInPart(c, n, PartStart(c, n, k) + b, j) == b
    decreases k - j
  {
    if j < k {
      PartStartAscends(c, n, j + 1, k);
      PlaceInPartFrom(c, n, b, k, j + 1);
    }
  }

  lemma SamplePlaceInPart(c: Cover, n: nat, m: nat, b: nat, k: nat)
    requires ValidResidues(c) && InPart(c, n, m, b, k)
    ensures PlaceInPart(c, n, SamplePlace(c, n, m), 0) == b
  {
    PlaceInPartFrom(c, n, b, k, 0);
  }

  lemma InterleavesInTextOrder(c: Cover, n: nat, m: nat, m': nat)
    requires ValidResidues(c) && m < |Samples(c, n)| && m' < |Samples(c, n)|
    ensures ByPlaceInPart(c, n, SamplePlace(c, n, m), SamplePlace(c, n, m')) <==> m < m'
  {
    SampleInPart(c, n, m);
    SampleInPart(c, n, m');
    SamplePlaceInPart(c, n, m, BlockOf(c, m), PartOf(c, m));
    SamplePlaceInPart(c, n, m', BlockOf(c, m'), PartOf(c, m'));
    PlaceOrder(c, n, m, BlockOf(c, m), PartOf(c, m), m', BlockOf(c, m'), PartOf(c, m'));
    BlockPartOrder(BlockOf(c, m), PartOf(c, m), BlockOf(c, m'), PartOf(c, m'), |c.residues|);
  }

  /** The order of positions by block, then by position. */
  predicate ByBlock(c: Cover, i: nat, j: nat)
    requires c.period > 0
  {
    i / c.period < j / c.period || (i / c.period == j / c.period && i < j)
  }

  lemma ByBlockIsTextOrder(c: Cover, i: nat, j: nat)
    requires c.period > 0
    ensures ByBlock(c, i, j) <==> i < j
  {
    BlockPartOrder(i / c.period, i % c.period, j / c.period, j % c.period, c.period);
  }
}
