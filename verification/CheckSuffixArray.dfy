/**
 The suffix array checker (examples/suffix_sorting/check_sa.hpp): a permutation check on the inverse
 suffix array, then a check of neighbouring ranks that looks at one character and one rank only.
 */
module CheckSuffixArray {
  import opened Lists
  import opened Suffixes

  datatype Index3 = Index3(index: nat, next: nat, ch: nat)

  /** The checker returns true or false, or Zip aborts on lists of different length. */
  datatype Verdict = Accepted | Rejected | Aborted

  predicate ByIndex3(a: Index3, b: Index3) { a.index < b.index }

  function IsaPairs(sa: seq<nat>): seq<IndexRank> { Sort(NumberRanks(sa), ByIndex) }

  function PermFlags(isa: seq<IndexRank>): (r: seq<nat>)
    ensures |r| == |isa|
  {
    seq(|isa|, i requires 0 <= i < |isa| => if isa[i].index == i then 0 else 1)
  }

  /** The window over the inverse suffix array from window `i` on: pairs of neighbouring ranks, and
      the sentinel pair behind the window at the second to last position of the input. */
  function RankPairs(isa: seq<IndexRank>, inputSize: nat, i: nat): seq<(nat, nat)>
    decreases |isa| - i
  {
    if i + 1 >= |isa| then [] else
      [(isa[i].rank, isa[i + 1].rank)]
      + (if i + 2 == inputSize then [(isa[i + 1].rank, inputSize)] else [])
      + RankPairs(isa, inputSize, i + 1)
  }

  function ZipCharacters(pairs: seq<(nat, nat)>, t: Text): (r: seq<Index3>)
    requires |pairs| == |t|
    ensures |r| == |t|
  {
    seq(|t|, i requires 0 <= i < |t| => Index3(pairs[i].0, pairs[i].1, t[i]))
  }

  /** One for a violation of the order of two neighbours, zero otherwise. */
  function OrderFlag(a: Index3, b: Index3, inputSize: nat): nat
  {
    if a.ch > b.ch then 1
    else if a.ch == b.ch then
      if b.next == inputSize then 1
      else if a.next != inputSize && a.next > b.next then 1
      else 0
    else 0
  }

  function OrderFlags(s: seq<Index3>, inputSize: nat): (r: seq<nat>)
    ensures |s| > 0 ==> |r| == |s| - 1
  {
    if |s| == 0 then [] else
    seq(|s| - 1, k requires 0 <= k < |s| - 1 => OrderFlag(s[k], s[k + 1], inputSize))
  }

  function CheckSA(t: Text, sa: seq<nat>): Verdict
  {
    var isa := IsaPairs(sa);
    if Max(PermFlags(isa)) != 0 then Rejected
    else
      var pairs := RankPairs(isa, |t|, 0);
      if |pairs| != |t| then Aborted
      else
        var orderCheck := Sort(ZipCharacters(pairs, t), ByIndex3);
        if Max(OrderFlags(orderCheck, |t|)) == 0 then Accepted else Rejected
  }

  // ---------------------------------------------------------------- the permutation check

  lemma MaxZero(s: seq<nat>)
    ensures Max(s) == 0 <==> forall k | 0 <= k < |s| :: s[k] == 0
  {
    forall k | 0 <= k < |s| ensures s[k] <= Max(s) { assert s[k] in s; }
  }

  lemma Index3Ordered(s: seq<Index3>)
    ensures StrictWeakOrderOn(ByIndex3, s)
  {
  }

  /** For a permutation, sorting by index yields the inverse permutation in text order. */
  lemma SortedIsInverse(sa: seq<nat>, inv: seq<nat>)
    requires IsPerm(sa, |sa|) && inv == Inverse(sa, |sa|)
    ensures IsaPairs(sa) == Pairs(inv)
  {
    SortNumbered(sa, inv);
  }

  /** The permutation check passes exactly on permutations. */
  lemma PermCheck(sa: seq<nat>)
    ensures Max(PermFlags(IsaPairs(sa))) == 0 <==> IsPerm(sa, |sa|)
  {
    var q := IsaPairs(sa);
    MaxZero(PermFlags(q));
    if Max(PermFlags(q)) == 0 {
      var idx := Map<IndexRank, nat>(IndexOf, q);
      MapMultiset<IndexRank, nat>(IndexOf, NumberRanks(sa), q);
      assert Map<IndexRank, nat>(IndexOf, NumberRanks(sa)) == sa;
      forall k | 0 <= k < |q| ensures idx[k] == k { assert PermFlags(q)[k] == 0; }
      PermOfMultiset(idx, sa, |sa|);
    }
    if IsPerm(sa, |sa|) { SortedIsInverse(sa, Inverse(sa, |sa|)); }
  }

  // ---------------------------------------------------------------- the order check

  lemma {:induction false} PairsShape(isa: seq<IndexRank>, inputSize: nat, i: nat)
    ensures |isa| <= i + 1 ==> RankPairs(isa, inputSize, i) == []
    ensures |isa| > i + 1 ==> |RankPairs(isa, inputSize, i)|
                              == |isa| - 1 - i + (if i + 2 <= inputSize <= |isa| then 1 else 0)
    decreases |isa| - i
  {
    if i + 1 < |isa| { PairsShape(isa, inputSize, i + 1); }
  }

  lemma {:induction false} PairAt(isa: seq<IndexRank>, i: nat, k: nat)
    requires i + 1 < |isa| && k < |isa| - i
    ensures |RankPairs(isa, |isa|, i)| == |isa| - i
    ensures RankPairs(isa, |isa|, i)[k] == (isa[i + k].rank, if i + k + 1 < |isa| then isa[i + k + 1].rank else |isa|)
    decreases |isa| - i
  {
    PairsShape(isa, |isa|, i);
    if i + 2 == |isa| {
      assert RankPairs(isa, |isa|, i + 1) == [];
    } else if k > 0 {
      PairAt(isa, i + 1, k - 1);
    }
  }

  /** The rank behind position `p`, the text length at the last position. */
  ghost function Next(inv: seq<nat>, p: nat): nat
    requires p < |inv|
  {
    if p + 1 < |inv| then inv[p + 1] else |inv|
  }

  /** What the order check sees: the characters and next ranks in suffix array order. */
  ghost function InSaOrder(t: Text, sa: seq<nat>, inv: seq<nat>): (r: seq<Index3>)
    requires |t| == |sa| == |inv| && forall k | 0 <= k < |sa| :: sa[k] < |sa|
    ensures |r| == |sa| && forall k | 0 <= k < |sa| :: r[k] == Index3(k, Next(inv, sa[k]), t[sa[k]])
  {
    seq(|sa|, k requires 0 <= k < |sa| => Index3(k, Next(inv, sa[k]), t[sa[k]]))
  }

  lemma ZippedAt(t: Text, sa: seq<nat>, inv: seq<nat>, z: seq<Index3>, p: nat)
    requires |t| == |sa| >= 2 && IsPerm(sa, |sa|) && inv == Inverse(sa, |sa|) && p < |t|
    requires |RankPairs(Pairs(inv), |t|, 0)| == |t| && z == ZipCharacters(RankPairs(Pairs(inv), |t|, 0), t)
    ensures InSaOrder(t, sa, inv)[inv[p]] == z[p]
  {
    PairAt(Pairs(inv), 0, p);
  }

  /** Item `p` of one list is at place `inv[p]` of the other. */
  ghost predicate Placed(z: seq<Index3>, w: seq<Index3>, inv: seq<nat>) {
    |z| == |w| == |inv| && forall p | 0 <= p < |inv| :: inv[p] < |w| && w[inv[p]] == z[p]
  }

  lemma PlacedIsRearranged(z: seq<Index3>, w: seq<Index3>, inv: seq<nat>)
    requires Placed(z, w, inv) && IsPerm(inv, |z|)
    ensures multiset(z) == multiset(w)
  {
    RearrangedMultiset(z, w, inv);
  }

  lemma ZippedIsRearranged(t: Text, sa: seq<nat>, inv: seq<nat>, z: seq<Index3>, w: seq<Index3>)
    requires |t| == |sa| >= 2 && IsPerm(sa, |sa|) && inv == Inverse(sa, |sa|) && w == InSaOrder(t, sa, inv)
    requires |RankPairs(Pairs(inv), |t|, 0)| == |t| && z == ZipCharacters(RankPairs(Pairs(inv), |t|, 0), t)
    ensures multiset(z) == multiset(w)
  {
    forall p | 0 <= p < |t| ensures w[inv[p]] == z[p] { ZippedAt(t, sa, inv, z, p); }
    PlacedIsRearranged(z, w, inv);
  }

  lemma OrderCheckInput(t: Text, sa: seq<nat>, inv: seq<nat>)
    requires |t| == |sa| >= 2 && IsPerm(sa, |sa|) && inv == Inverse(sa, |sa|)
    ensures var pairs := RankPairs(IsaPairs(sa), |t|, 0);
            |pairs| == |t| && Sort(ZipCharacters(pairs, t), ByIndex3) == InSaOrder(t, sa, inv)
  {
    SortedIsInverse(sa, inv);
    var pairs := RankPairs(IsaPairs(sa), |t|, 0);
    PairsShape(Pairs(inv), |t|, 0);
    ZippedIsRearranged(t, sa, inv, ZipCharacters(pairs, t), InSaOrder(t, sa, inv));
    SortedByRank(ZipCharacters(pairs, t), InSaOrder(t, sa, inv));
  }

  lemma SortedByRank(z: seq<Index3>, w: seq<Index3>)
    requires multiset(z) == multiset(w) && forall k | 0 <= k < |w| :: w[k].index == k
    ensures Sort(z, ByIndex3) == w
  {
    Index3Ordered(z);
    var q := Sort(z, ByIndex3);
    SameItems(q, w);
    forall x, y | x in q && y in q && x != y ensures ByIndex3(x, y) || ByIndex3(y, x) {
      assert x in w && y in w;
    }
    SortedUnique(q, w, ByIndex3);
  }

  /** Neighbours `k` and `k + 1` pass the check. */
  ghost predicate NeighboursPass(t: Text, sa: seq<nat>, inv: seq<nat>, k: nat)
    requires |t| == |sa| == |inv| && k + 1 < |sa| && forall m | 0 <= m < |sa| :: sa[m] < |sa|
  {
    || t[sa[k]] < t[sa[k + 1]]
    || (t[sa[k]] == t[sa[k + 1]] && Next(inv, sa[k + 1]) != |t|
        && (Next(inv, sa[k]) == |t| || Next(inv, sa[k]) <= Next(inv, sa[k + 1])))
  }

  /** Passing neighbours compare the same way at any distance. */
  lemma {:induction false} PassAtDistance(t: Text, sa: seq<nat>, inv: seq<nat>, a: nat, b: nat)
    requires |t| == |sa| && IsPerm(sa, |sa|) && inv == Inverse(sa, |sa|) && a < b < |t|
    requires forall k: nat | k + 1 < |t| :: NeighboursPass(t, sa, inv, k)
    ensures t[sa[a]] <= t[sa[b]]
    ensures t[sa[a]] == t[sa[b]] ==> sa[b] + 1 < |t|
    ensures t[sa[a]] == t[sa[b]] && sa[a] + 1 < |t| ==> inv[sa[a] + 1] < inv[sa[b] + 1]
    decreases b - a
  {
    assert NeighboursPass(t, sa, inv, b - 1);
    if a < b - 1 { PassAtDistance(t, sa, inv, a, b - 1); }
    var p := sa[b - 1];
    if p + 1 < |t| && sa[b] + 1 < |t| { assert sa[inv[p + 1]] != sa[inv[sa[b] + 1]]; }
  }

  lemma {:induction false} PassingIsSorted(t: Text, sa: seq<nat>, inv: seq<nat>, a: nat, b: nat)
    requires |t| == |sa| && IsPerm(sa, |sa|) && inv == Inverse(sa, |sa|) && a < b < |t|
    requires forall k: nat | k + 1 < |t| :: NeighboursPass(t, sa, inv, k)
    ensures SufLess(t, sa[a], sa[b])
    decreases |t| - sa[b]
  {
    PassAtDistance(t, sa, inv, a, b);
    if t[sa[a]] == t[sa[b]] && sa[a] + 1 < |t| {
      PassingIsSorted(t, sa, inv, inv[sa[a] + 1], inv[sa[b] + 1]);
    }
  }

  lemma SortedPasses(t: Text, sa: seq<nat>, inv: seq<nat>, k: nat)
    requires IsSuffixArray(t, sa) && inv == Inverse(sa, |sa|) && k + 1 < |t|
    ensures NeighboursPass(t, sa, inv, k)
  {
    var i, j := sa[k], sa[k + 1];
    assert SufLess(t, i, j);
    if t[i] == t[j] {
      assert SufLess(t, i + 1, j + 1);
      if i + 1 < |t| {
        RankOrder(t, sa, inv[i + 1], inv[j + 1]);
        assert Next(inv, i) == inv[i + 1] && Next(inv, j) == inv[j + 1];
      }
    }
  }

  lemma OrderFlagAt(t: Text, sa: seq<nat>, inv: seq<nat>, k: nat)
    requires |t| == |sa| >= 2 && IsPerm(sa, |sa|) && inv == Inverse(sa, |sa|) && k + 1 < |t|
    ensures OrderFlags(InSaOrder(t, sa, inv), |t|)[k] == 0 <==> NeighboursPass(t, sa, inv, k)
  {
    var w := InSaOrder(t, sa, inv);
    assert OrderFlags(w, |t|)[k] == OrderFlag(w[k], w[k + 1], |t|);
  }

  lemma OrderFlagsPass(t: Text, sa: seq<nat>, inv: seq<nat>)
    requires |t| == |sa| >= 2 && IsPerm(sa, |sa|) && inv == Inverse(sa, |sa|)
    ensures Max(OrderFlags(InSaOrder(t, sa, inv), |t|)) == 0
      <==> forall k: nat | k + 1 < |t| :: NeighboursPass(t, sa, inv, k)
  {
    var flags := OrderFlags(InSaOrder(t, sa, inv), |t|);
    MaxZero(flags);
    forall k: nat | k + 1 < |t| ensures NeighboursPass(t, sa, inv, k) <==> flags[k] == 0 {
      OrderFlagAt(t, sa, inv, k);
    }
  }

  /** On texts of at least two characters with a list of the same length, the checker accepts exactly
      the suffix array. */
  lemma CheckIsExact(t: Text, sa: seq<nat>)
    requires |t| == |sa| >= 2
    ensures CheckSA(t, sa) == Accepted <==> IsSuffixArray(t, sa)
    ensures CheckSA(t, sa) != Aborted
  {
    PermCheck(sa);
    if IsPerm(sa, |sa|) {
      var inv := Inverse(sa, |sa|);
      OrderCheckInput(t, sa, inv);
      OrderFlagsPass(t, sa, inv);
      if forall k: nat | k + 1 < |t| :: NeighboursPass(t, sa, inv, k) {
        forall a, b | 0 <= a < b < |t| ensures SufLess(t, sa[a], sa[b]) { PassingIsSorted(t, sa, inv, a, b); }
      }
      if IsSuffixArray(t, sa) {
        forall k: nat | k + 1 < |t| ensures NeighboursPass(t, sa, inv, k) { SortedPasses(t, sa, inv, k); }
      }
    }
  }

  /** What the checker accepts over all inputs: besides suffix arrays of texts that are not a single
      character, it accepts a permutation that is one longer than a text of at most one character.
      The single-character text with its suffix array makes Zip abort. */
  lemma AcceptedInputs(t: Text, sa: seq<nat>)
    ensures CheckSA(t, sa) == Accepted
      <==> (|t| != 1 && IsSuffixArray(t, sa)) || (|t| <= 1 && |sa| == |t| + 1 && IsPerm(sa, |sa|))
    ensures |t| == 1 && IsSuffixArray(t, sa) ==> CheckSA(t, sa) == Aborted
  {
    PermCheck(sa);
    if |t| == |sa| >= 2 {
      CheckIsExact(t, sa);
    } else if IsPerm(sa, |sa|) {
      PairsShape(IsaPairs(sa), |t|, 0);
      if |RankPairs(IsaPairs(sa), |t|, 0)| == |t| {
        var z := ZipCharacters(RankPairs(IsaPairs(sa), |t|, 0), t);
        assert |Sort(z, ByIndex3)| <= 1;
        assert OrderFlags(Sort(z, ByIndex3), |t|) == [];
      }
    }
  }
}
