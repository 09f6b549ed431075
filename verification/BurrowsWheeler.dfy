/**
 The Burrows-Wheeler transform (examples/suffix_sorting/construct_bwt.hpp) and its inverse
 permutation as the LCP construction computes it (examples/suffix_sorting/construct_lcp.hpp:97-136).
 */
module BurrowsWheeler {
  import opened Lists
  import opened Suffixes

  datatype IndexChar = IndexChar(index: nat, ch: nat)

  function IndexOfChar(x: IndexChar): nat { x.index }

  function CharOf(x: IndexChar): nat { x.ch }

  predicate ByCharIndex(a: IndexChar, b: IndexChar) { a.index < b.index }

  /** By character, ties by index. */
  predicate ByChar(a: IndexChar, b: IndexChar) {
    if a.ch == b.ch then a.index < b.index else a.ch < b.ch
  }

  // ---------------------------------------------------------------- the pipelines

  /** The position before `i` in the text, the last one before position zero. */
  function Previous(n: nat, i: nat): nat
    requires n > 0
  {
    if i == 0 then n - 1 else i - 1
  }

  function ZipChars(s: seq<IndexRank>, t: Text): (r: seq<IndexChar>)
    requires |s| == |t|
    ensures |r| == |t|
  {
    seq(|t|, i requires 0 <= i < |t| => IndexChar(s[i].rank, t[i]))
  }

  function PreviousPositions(n: nat, sa: seq<nat>): (r: seq<nat>)
    requires n > 0
    ensures |r| == |sa| && forall k | 0 <= k < |sa| :: r[k] == Previous(n, sa[k])
  {
    seq(|sa|, k requires 0 <= k < |sa| => Previous(n, sa[k]))
  }

  /** The transform; Zip asks for lists of the same length. */
  function ConstructBWT(t: Text, sa: seq<nat>): (bwt: seq<nat>)
    requires |t| == |sa|
    ensures |bwt| == |t|
  {
    if |t| == 0 then [] else
    var byText := Sort(NumberRanks(PreviousPositions(|t|, sa)), ByIndex);
    Map(CharOf, Sort(ZipChars(byText, t), ByCharIndex))
  }

  function NumberChars(bwt: seq<nat>): (r: seq<IndexChar>)
    ensures |r| == |bwt|
  {
    seq(|bwt|, i requires 0 <= i < |bwt| => IndexChar(i, bwt[i]))
  }

  /** The characters of the transform in sorted order, each with its place in the transform. */
  function SortedChars(bwt: seq<nat>): (r: seq<IndexChar>)
    ensures |r| == |bwt|
  {
    Sort(NumberChars(bwt), ByChar)
  }

  function InverseBWT(bwt: seq<nat>): (r: seq<nat>)
    ensures |r| == |bwt|
  {
    Map(RankOf, Sort(NumberRanks(Map(IndexOfChar, SortedChars(bwt))), ByIndex))
  }

  lemma PreviousIsPerm(n: nat, sa: seq<nat>)
    requires n > 0 && IsPerm(sa, n)
    ensures IsPerm(PreviousPositions(n, sa), n)
  {
  }

  // ---------------------------------------------------------------- the transform

  /** The transform lists the character before every suffix, in suffix array order. */
  ghost function CharsBefore(t: Text, sa: seq<nat>): (r: seq<IndexChar>)
    requires |t| == |sa| > 0 && IsPerm(sa, |t|)
    ensures |r| == |t| && forall k | 0 <= k < |t| :: r[k] == IndexChar(k, t[Previous(|t|, sa[k])])
  {
    seq(|t|, k requires 0 <= k < |t| => IndexChar(k, t[Previous(|t|, sa[k])]))
  }

  lemma BWTIsCharBefore(t: Text, sa: seq<nat>)
    requires |t| > 0 && IsPerm(sa, |t|)
    ensures forall k | 0 <= k < |t| :: ConstructBWT(t, sa)[k] == t[Previous(|t|, sa[k])]
  {
    var prev := PreviousPositions(|t|, sa);
    PreviousIsPerm(|t|, sa);
    var inv := Inverse(prev, |t|);
    SortNumbered(prev, inv);
    var z, w := ZipChars(Pairs(inv), t), CharsBefore(t, sa);
    forall p | 0 <= p < |t| ensures w[inv[p]] == z[p] { assert prev[inv[p]] == p; }
    RearrangedMultiset(z, w, inv);
    SortByNumber(z, w, IndexOfChar, ByCharIndex);
  }

  // ---------------------------------------------------------------- the inverse permutation

  /** The computed inverse sends place `r` of the transform to its place in the sorted characters. */
  lemma InverseBWTAt(bwt: seq<nat>)
    ensures IsPerm(InverseBWT(bwt), |bwt|)
    ensures forall r | 0 <= r < |bwt| :: SortedChars(bwt)[InverseBWT(bwt)[r]] == IndexChar(r, bwt[r])
  {
    var z, q := NumberChars(bwt), SortedChars(bwt);
    var idx := Map<IndexChar, nat>(IndexOfChar, q);
    MapMultiset<IndexChar, nat>(IndexOfChar, z, q);
    var numbers := Map<IndexChar, nat>(IndexOfChar, z);
    assert IsPerm(numbers, |bwt|);
    PermOfMultiset(numbers, idx, |bwt|);
    var inv := Inverse(idx, |bwt|);
    SortNumbered(idx, inv);
    assert InverseBWT(bwt) == inv;
    SameItems(z, q);
    forall r | 0 <= r < |bwt| ensures q[inv[r]] == IndexChar(r, bwt[r]) {
      assert idx[inv[r]] == r;
      assert q[inv[r]] in q;
      var m := IndexIn(q[inv[r]], z);
    }
  }

  lemma InverseBWTEntry(bwt: seq<nat>, r: nat)
    requires r < |bwt|
    ensures InverseBWT(bwt)[r] < |bwt| && SortedChars(bwt)[InverseBWT(bwt)[r]] == IndexChar(r, bwt[r])
  {
    InverseBWTAt(bwt);
  }

  lemma BWTEntry(t: Text, sa: seq<nat>, k: nat)
    requires |t| > 0 && IsPerm(sa, |t|) && k < |t|
    ensures ConstructBWT(t, sa)[k] == t[Previous(|t|, sa[k])]
  {
    BWTIsCharBefore(t, sa);
  }

  /** The LF mapping: from the rank of a suffix to the rank of the suffix one position earlier. */
  ghost function LF(t: Text, sa: seq<nat>): (f: seq<nat>)
    requires |t| > 0 && IsPerm(sa, |t|)
    ensures |f| == |t|
  {
    seq(|t|, r requires 0 <= r < |t| => Inverse(sa, |t|)[Previous(|t|, sa[r])])
  }

  lemma LFAt(t: Text, sa: seq<nat>, r: nat)
    requires |t| > 0 && IsPerm(sa, |t|) && r < |t|
    ensures LF(t, sa)[r] == Inverse(sa, |t|)[Previous(|t|, sa[r])]
    ensures LF(t, sa)[r] < |t| && sa[LF(t, sa)[r]] == Previous(|t|, sa[r])
  {
  }

  lemma LFIsPerm(t: Text, sa: seq<nat>)
    requires |t| > 0 && IsPerm(sa, |t|)
    ensures IsPerm(LF(t, sa), |t|)
  {
    var f := LF(t, sa);
    forall a | 0 <= a < |t| ensures f[a] < |t| { LFAt(t, sa, a); }
    forall a, b | 0 <= a < b < |t| ensures f[a] != f[b] {
      LFAt(t, sa, a);
      LFAt(t, sa, b);
    }
  }

  /** Wherever the last character also occurs earlier, the whole text sorts before what follows. */
  ghost predicate WrapFits(t: Text) {
    forall q: nat | q + 1 < |t| && t[q] == t[|t| - 1] :: SufLess(t, 0, q + 1)
  }

  ghost predicate UniqueSmallestLast(t: Text) {
    |t| > 0 && forall q | 0 <= q < |t| - 1 :: t[|t| - 1] < t[q]
  }

  /** When the wrap fits, suffixes order like the characters before what follows them. */
  lemma WrapOrder(t: Text, p: nat, q: nat)
    requires WrapFits(t) && p < |t| && q < |t| && SufLess(t, p, q) && t[p] == t[q]
    ensures q + 1 < |t| && SufLess(t, if p + 1 == |t| then 0 else p + 1, q + 1)
  {
    assert SufLess(t, p + 1, q + 1);
  }

  /** When the wrap fits, LF maps in the order in which the characters are sorted. */
  lemma LFOrder(t: Text, sa: seq<nat>, r: nat, s: nat)
    requires |t| > 0 && IsSuffixArray(t, sa) && WrapFits(t) && r < |t| && s < |t| && LF(t, sa)[r] < LF(t, sa)[s]
    ensures var p, q := Previous(|t|, sa[r]), Previous(|t|, sa[s]);
            t[p] < t[q] || (t[p] == t[q] && r < s)
  {
    var p, q := Previous(|t|, sa[r]), Previous(|t|, sa[s]);
    LFAt(t, sa, r);
    LFAt(t, sa, s);
    RankOrder(t, sa, LF(t, sa)[r], LF(t, sa)[s]);
    if t[p] == t[q] {
      WrapOrder(t, p, q);
      RankOrder(t, sa, r, s);
    }
  }

  ghost function InLFOrder(t: Text, sa: seq<nat>, bwt: seq<nat>): (w: seq<IndexChar>)
    requires |t| == |bwt| > 0 && IsPerm(sa, |t|)
    ensures |w| == |t| && forall r | 0 <= r < |t| :: w[LF(t, sa)[r]] == IndexChar(r, bwt[r])
  {
    LFIsPerm(t, sa);
    var back := Inverse(LF(t, sa), |t|);
    seq(|t|, j requires 0 <= j < |t| => IndexChar(back[j], bwt[back[j]]))
  }

  lemma LFWhenWrapFits(t: Text, sa: seq<nat>)
    requires |t| > 0 && IsSuffixArray(t, sa) && WrapFits(t)
    ensures InverseBWT(ConstructBWT(t, sa)) == LF(t, sa)
  {
    var n, bwt, f := |t|, ConstructBWT(t, sa), LF(t, sa);
    BWTIsCharBefore(t, sa);
    LFIsPerm(t, sa);
    var back := Inverse(f, n);
    var z, w := NumberChars(bwt), InLFOrder(t, sa, bwt);
    RearrangedMultiset(z, w, f);
    forall i, j | 0 <= i < j < n ensures !ByChar(w[j], w[i]) {
      LFOrder(t, sa, back[i], back[j]);
    }
    CharsSortUniquely(z, w);
    InverseBWTAt(bwt);
    forall r | 0 <= r < n ensures InverseBWT(bwt)[r] == f[r] {
      var m := InverseBWT(bwt)[r];
      assert w[m] == IndexChar(r, bwt[r]);
      assert f[back[m]] == m;
    }
  }

  lemma CharsSortUniquely(z: seq<IndexChar>, w: seq<IndexChar>)
    requires multiset(z) == multiset(w) && SortedBy(w, ByChar)
    ensures Sort(z, ByChar) == w
  {
    assert StrictWeakOrderOn(ByChar, z);
    SortedUnique(Sort(z, ByChar), w, ByChar);
  }

  /** The last character alone sorts before every other suffix starting with it. */
  lemma LastIsFirst(t: Text, q: nat)
    requires q + 1 < |t| && t[q] == t[|t| - 1]
    ensures SufLess(t, |t| - 1, q)
  {
    assert Agree(t, |t| - 1 + 1, q + 1, 0);
    ShorterIsSmaller(t, |t| - 1, q, 1);
  }

  lemma SortedCharsOrder(bwt: seq<nat>, a: nat, b: nat)
    requires a < b < |bwt|
    ensures !ByChar(SortedChars(bwt)[b], SortedChars(bwt)[a])
  {
    assert StrictWeakOrderOn(ByChar, NumberChars(bwt));
  }

  /** Places of the transform with one character are sent to sorted places in their order. */
  lemma TiesInOrder(bwt: seq<nat>, f: seq<nat>, r: nat, s: nat)
    requires |f| == |bwt| && f == InverseBWT(bwt) && r < |bwt| && s < |bwt| && bwt[r] == bwt[s] && f[r] < f[s]
    ensures r <= s
  {
    InverseBWTEntry(bwt, r);
    InverseBWTEntry(bwt, s);
    SortedCharsOrder(bwt, f[r], f[s]);
  }

  /** LF takes the rank of the suffix after the last character to a lower rank than that after an equal one. */
  lemma LFOfTies(t: Text, sa: seq<nat>, q: nat, r: nat, s: nat)
    requires |t| > 0 && IsSuffixArray(t, sa) && q + 1 < |t| && t[q] == t[|t| - 1]
    requires r < |t| && s < |t| && sa[r] == 0 && sa[s] == q + 1
    ensures LF(t, sa)[r] < LF(t, sa)[s]
  {
    LFAt(t, sa, r);
    LFAt(t, sa, s);
    LastIsFirst(t, q);
    RankOrder(t, sa, LF(t, sa)[r], LF(t, sa)[s]);
  }

  lemma WrapFitsWhenLF(t: Text, sa: seq<nat>, bwt: seq<nat>, f: seq<nat>, q: nat)
    requires |t| > 0 && IsSuffixArray(t, sa) && bwt == ConstructBWT(t, sa) && f == LF(t, sa) && f == InverseBWT(bwt)
    requires q + 1 < |t| && t[q] == t[|t| - 1]
    ensures SufLess(t, 0, q + 1)
  {
    var r, s := Inverse(sa, |t|)[0], Inverse(sa, |t|)[q + 1];
    RanksOfTies(t, sa, bwt, f, q, r, s);
    LaterRank(t, sa, q + 1, r, s);
  }

  lemma LaterRank(t: Text, sa: seq<nat>, x: nat, r: nat, s: nat)
    requires IsSuffixArray(t, sa) && r <= s < |t| && sa[r] == 0 && sa[s] == x > 0
    ensures SufLess(t, 0, x)
  {
    RankOrder(t, sa, r, s);
  }

  lemma RanksOfTies(t: Text, sa: seq<nat>, bwt: seq<nat>, f: seq<nat>, q: nat, r: nat, s: nat)
    requires |t| > 0 && IsSuffixArray(t, sa) && bwt == ConstructBWT(t, sa) && f == LF(t, sa) && f == InverseBWT(bwt)
    requires q + 1 < |t| && t[q] == t[|t| - 1] && r < |t| && s < |t| && sa[r] == 0 && sa[s] == q + 1
    ensures r <= s
  {
    LFOfTies(t, sa, q, r, s);
    CharsOfTies(t, sa, bwt, q, r, s);
    TiesInOrder(bwt, f, r, s);
  }

  lemma CharsOfTies(t: Text, sa: seq<nat>, bwt: seq<nat>, q: nat, r: nat, s: nat)
    requires |t| > 0 && IsPerm(sa, |t|) && bwt == ConstructBWT(t, sa) && q + 1 < |t| && t[q] == t[|t| - 1]
    requires r < |t| && s < |t| && sa[r] == 0 && sa[s] == q + 1
    ensures |bwt| == |t| && bwt[r] == bwt[s]
  {
    CharOfRank(t, sa, r, |t| - 1);
    CharOfRank(t, sa, s, q);
  }

  /** The computed inverse is the LF mapping exactly when the wrap from the first to the last
      character sorts like the other steps. */
  lemma InverseIsLF(t: Text, sa: seq<nat>)
    requires |t| > 0 && IsSuffixArray(t, sa)
    ensures InverseBWT(ConstructBWT(t, sa)) == LF(t, sa) <==> WrapFits(t)
    ensures UniqueSmallestLast(t) ==> InverseBWT(ConstructBWT(t, sa)) == LF(t, sa)
  {
    if WrapFits(t) { LFWhenWrapFits(t, sa); }
    if InverseBWT(ConstructBWT(t, sa)) == LF(t, sa) {
      forall q: nat | q + 1 < |t| && t[q] == t[|t| - 1] ensures SufLess(t, 0, q + 1) {
        WrapFitsWhenLF(t, sa, ConstructBWT(t, sa), LF(t, sa), q);
      }
    }
  }

  /** On the text `aa` the computed inverse is not the LF mapping. */
  lemma InverseIsNotAlwaysLF(t: Text, sa: seq<nat>)
    requires t == [97, 97] && sa == [1, 0]
    ensures IsSuffixArray(t, sa) && InverseBWT(ConstructBWT(t, sa)) != LF(t, sa)
  {
    assert SufLess(t, 1, 0);
    assert !SufLess(t, 0, 1);
    assert t[0] == t[|t| - 1];
    InverseIsLF(t, sa);
  }

  // ---------------------------------------------------------------- rebuilding the text

  ghost predicate MapsInside(f: seq<nat>) { forall i | 0 <= i < |f| :: f[i] < |f| }

  function Iterate(f: seq<nat>, r: nat, k: nat): (x: nat)
    requires r < |f| && MapsInside(f)
    ensures x < |f|
  {
    if k == 0 then r else f[Iterate(f, r, k - 1)]
  }

  /** Following the LF mapping from the rank of the whole text visits the positions backwards. */
  lemma {:induction false} IterateGoesBack(t: Text, sa: seq<nat>, f: seq<nat>, k: nat)
    requires |t| > 0 && IsPerm(sa, |t|) && f == LF(t, sa) && k < |t|
    requires MapsInside(f)
    ensures Previous(|t|, sa[Iterate(f, Inverse(sa, |t|)[0], k)]) == |t| - 1 - k
    decreases k
  {
    var start := Inverse(sa, |t|)[0];
    if k == 0 {
      assert sa[start] == 0;
    } else {
      IterateGoesBack(t, sa, f, k - 1);
      LFAt(t, sa, Iterate(f, start, k - 1));
    }
  }

  /** The text read off a transform by following a permutation from a starting rank, last character first. */
  function ReadBack(bwt: seq<nat>, f: seq<nat>, start: nat): (r: seq<nat>)
    requires |f| == |bwt| && start < |bwt| && MapsInside(f)
    ensures |r| == |bwt|
  {
    seq(|bwt|, i requires 0 <= i < |bwt| => bwt[Iterate(f, start, |bwt| - 1 - i)])
  }

  /** The text is recovered from its transform, given where the whole text ranks. */
  lemma BWTRoundTrip(t: Text, sa: seq<nat>)
    requires |t| > 0 && IsSuffixArray(t, sa) && WrapFits(t)
    ensures var bwt := ConstructBWT(t, sa);
            MapsInside(InverseBWT(bwt)) && ReadBack(bwt, InverseBWT(bwt), Inverse(sa, |t|)[0]) == t
  {
    var bwt := ConstructBWT(t, sa);
    InverseIsLF(t, sa);
    var f, start := InverseBWT(bwt), Inverse(sa, |t|)[0];
    forall i | 0 <= i < |t| ensures f[i] < |t| { InverseBWTEntry(bwt, i); }
    forall k: nat | k < |t|
      ensures bwt[Iterate(f, start, k)] == t[|t| - 1 - k] {
      CharAtStep(t, sa, bwt, f, k, Iterate(f, start, k));
    }
    ReadBackIs(t, bwt, f, start);
  }

  lemma ReadBackIs(t: Text, bwt: seq<nat>, f: seq<nat>, start: nat)
    requires |f| == |bwt| == |t| && MapsInside(f) && start < |f|
    requires forall k: nat | k < |t| :: bwt[Iterate(f, start, k)] == t[|t| - 1 - k]
    ensures ReadBack(bwt, f, start) == t
  {
  }

  lemma CharAtStep(t: Text, sa: seq<nat>, bwt: seq<nat>, f: seq<nat>, k: nat, r: nat)
    requires |t| > 0 && IsPerm(sa, |t|) && bwt == ConstructBWT(t, sa) && f == LF(t, sa) && MapsInside(f) && k < |t|
    requires r == Iterate(f, Inverse(sa, |t|)[0], k)
    ensures r < |bwt| == |t| && bwt[r] == t[|t| - 1 - k]
  {
    IterateGoesBack(t, sa, f, k);
    CharOfRank(t, sa, r, |t| - 1 - k);
  }

  lemma CharOfRank(t: Text, sa: seq<nat>, r: nat, p: nat)
    requires |t| > 0 && IsPerm(sa, |t|) && r < |t| && Previous(|t|, sa[r]) == p
    ensures p < |t| && ConstructBWT(t, sa)[r] == t[p]
  {
    BWTEntry(t, sa, r);
  }
}
