/**
 Texts, the lexicographic order of their suffixes, and suffix arrays.

 A text is a sequence of character codes.  The suffix at a position past the end is empty.  `At`
 reads a text padded with the smallest character code, which is how every algorithm here reads
 beyond the end.
 */
module Suffixes {
  import opened Lists

  type Text = seq<nat>

  /** The suffix at `i` is lexicographically smaller than the suffix at `j`. */
  predicate SufLess(t: Text, i: nat, j: nat)
    decreases |t| - j
  {
    j < |t| && (i >= |t| || t[i] < t[j] || (t[i] == t[j] && SufLess(t, i + 1, j + 1)))
  }

  /** `sa` is the suffix array of `t`: the permutation listing all suffixes in increasing order. */
  ghost predicate IsSuffixArray(t: Text, sa: seq<nat>) {
    && IsPerm(sa, |t|)
    && forall a, b | 0 <= a < b < |t| :: SufLess(t, sa[a], sa[b])
  }

  lemma {:induction false} SufIrreflexive(t: Text, i: nat)
    ensures !SufLess(t, i, i)
    decreases |t| - i
  {
    if i < |t| { SufIrreflexive(t, i + 1); }
  }

  lemma {:induction false} SufTotal(t: Text, i: nat, j: nat)
    requires i != j && (i < |t| || j < |t|)
    ensures SufLess(t, i, j) <==> !SufLess(t, j, i)
    decreases |t| + |t| - i - j
  {
    if i < |t| && j < |t| && t[i] == t[j] {
      if i + 1 < |t| || j + 1 < |t| { SufTotal(t, i + 1, j + 1); }
    }
  }

  lemma {:induction false} SufTransitive(t: Text, i: nat, j: nat, k: nat)
    requires SufLess(t, i, j) && SufLess(t, j, k)
    ensures SufLess(t, i, k)
    decreases |t| - k
  {
    if i < |t| && t[i] == t[j] == t[k] { SufTransitive(t, i + 1, j + 1, k + 1); }
  }

  /** Suffix comparison is a strict weak order on any list of positions. */
  lemma SufIsOrder(t: Text, i: nat, j: nat, k: nat)
    requires i < |t| && j < |t| && k < |t|
    ensures !SufLess(t, i, i)
    ensures SufLess(t, i, j) && SufLess(t, j, k) ==> SufLess(t, i, k)
    ensures SufLess(t, i, k) ==> SufLess(t, i, j) || SufLess(t, j, k)
  {
    SufIrreflexive(t, i);
    if SufLess(t, i, j) && SufLess(t, j, k) { SufTransitive(t, i, j, k); }
    if SufLess(t, i, k) && !SufLess(t, i, j) && i != j {
      SufTotal(t, i, j);
      SufTransitive(t, j, i, k);
    }
  }

  /** In a suffix array, earlier means smaller and smaller means earlier. */
  lemma RankOrder(t: Text, sa: seq<nat>, a: nat, b: nat)
    requires IsSuffixArray(t, sa) && a < |t| && b < |t|
    ensures SufLess(t, sa[a], sa[b]) <==> a < b
  {
    if a == b { SufIrreflexive(t, sa[a]); }
    else if b < a { SufTotal(t, sa[a], sa[b]); }
  }

  /** A text has only one suffix array. */
  lemma SuffixArrayUnique(t: Text, a: seq<nat>, b: seq<nat>)
    requires IsSuffixArray(t, a) && IsSuffixArray(t, b)
    ensures a == b
  {
    var less := (x: nat, y: nat) => SufLess(t, x, y);
    PermsHaveSameItems(a, b, |t|);
    SuffixArraySorted(t, a, less);
    SuffixArraySorted(t, b, less);
    forall x, y | x in a && y in a && x != y ensures less(x, y) || less(y, x) { SufTotal(t, x, y); }
    SortedUnique(a, b, less);
  }

  lemma SuffixArraySorted(t: Text, sa: seq<nat>, less: (nat, nat) -> bool)
    requires IsSuffixArray(t, sa) && forall x: nat, y: nat :: less(x, y) <==> SufLess(t, x, y)
    ensures SortedBy(sa, less)
  {
    forall i, j | 0 <= i < j < |sa| ensures !less(sa[j], sa[i]) { RankOrder(t, sa, j, i); }
  }

  // ---------------------------------------------------------------- padded reading

  /** The character at `k`, or the padding value past the end. */
  function At(t: Text, k: nat): nat { if k < |t| then t[k] else 0 }

  /** The first `h` padded characters at `i` and `j` are the same. */
  ghost predicate Agree(t: Text, i: nat, j: nat, h: nat)
    decreases h
  {
    h == 0 || (At(t, i) == At(t, j) && Agree(t, i + 1, j + 1, h - 1))
  }

  lemma {:induction false} AgreeAt(t: Text, i: nat, j: nat, h: nat, k: nat)
    requires Agree(t, i, j, h) && k < h
    ensures At(t, i + k) == At(t, j + k)
    decreases h
  {
    if k > 0 { AgreeAt(t, i + 1, j + 1, h - 1, k - 1); }
  }

  /** Where the first difference lies, when the characters do not agree. */
  lemma {:induction false} DifferenceWithin(t: Text, i: nat, j: nat, h: nat) returns (d: nat)
    requires !Agree(t, i, j, h)
    ensures d < h && Agree(t, i, j, d) && At(t, i + d) != At(t, j + d)
    decreases h
  {
    if At(t, i) != At(t, j) {
      d := 0;
    } else {
      d := DifferenceWithin(t, i + 1, j + 1, h - 1);
      d := d + 1;
    }
  }

  lemma {:induction false} AgreeSplit(t: Text, i: nat, j: nat, a: nat, b: nat)
    ensures Agree(t, i, j, a + b) <==> Agree(t, i, j, a) && Agree(t, i + a, j + a, b)
    decreases a
  {
    if a > 0 { AgreeSplit(t, i + 1, j + 1, a - 1, b); }
  }

  lemma {:induction false} AgreeSelf(t: Text, i: nat, h: nat)
    ensures Agree(t, i, i, h)
    decreases h
  {
    if h > 0 { AgreeSelf(t, i + 1, h - 1); }
  }

  lemma {:induction false} AgreeSymmetric(t: Text, i: nat, j: nat, h: nat)
    requires Agree(t, i, j, h)
    ensures Agree(t, j, i, h)
    decreases h
  {
    if h > 0 { AgreeSymmetric(t, i + 1, j + 1, h - 1); }
  }

  lemma {:induction false} AgreeTransitive(t: Text, i: nat, j: nat, k: nat, h: nat)
    requires Agree(t, i, j, h) && Agree(t, j, k, h)
    ensures Agree(t, i, k, h)
    decreases h
  {
    if h > 0 { AgreeTransitive(t, i + 1, j + 1, k + 1, h - 1); }
  }

  /** Equal characters in front of two suffixes do not affect their order. */
  lemma {:induction false} SkipEqual(t: Text, i: nat, j: nat, h: nat)
    requires Agree(t, i, j, h) && i + h <= |t| && j + h <= |t|
    ensures SufLess(t, i, j) <==> SufLess(t, i + h, j + h)
    decreases h
  {
    if h > 0 { SkipEqual(t, i + 1, j + 1, h - 1); }
  }

  /** A suffix that ends within the agreeing characters is smaller than any longer one. */
  lemma {:induction false} ShorterIsSmaller(t: Text, i: nat, j: nat, h: nat)
    requires Agree(t, i, j, h) && j < i && j < |t| && i + h >= |t|
    ensures SufLess(t, i, j)
    decreases h
  {
    if i < |t| { ShorterIsSmaller(t, i + 1, j + 1, h - 1); }
  }

  /** The first differing padded character decides the order of two suffixes. */
  lemma {:induction false} FirstDifference(t: Text, i: nat, j: nat, h: nat)
    requires Agree(t, i, j, h) && At(t, i + h) != At(t, j + h)
    ensures SufLess(t, i, j) <==> At(t, i + h) < At(t, j + h)
    decreases h
  {
    if i < |t| && j < |t| && h > 0 { FirstDifference(t, i + 1, j + 1, h - 1); }
  }

  // ---------------------------------------------------------------- padded windows

  /** The `k` characters from position `i` on, padded past the end of the text. */
  function Window(t: Text, i: nat, k: nat): (r: seq<nat>)
    ensures |r| == k
  {
    seq<nat>(k, d requires 0 <= d < k => At(t, i + d))
  }

  lemma WindowAt(t: Text, i: nat, k: nat)
    ensures forall d | 0 <= d < k :: Window(t, i, k)[d] == At(t, i + d)
  {
  }

  lemma WindowsSame(t: Text, i: nat, j: nat, v: nat, k: nat)
    requires k <= v && Agree(t, i, j, k)
    ensures Window(t, i, v)[..k] == Window(t, j, v)[..k]
  {
    forall x | 0 <= x < k ensures Window(t, i, v)[x] == Window(t, j, v)[x] { AgreeAt(t, i, j, k, x); }
  }

  /** Where two windows first differ, which decides the order of the suffixes. */
  lemma WindowsDiffer(t: Text, i: nat, j: nat, v: nat) returns (k: nat)
    requires !Agree(t, i, j, v)
    ensures k < v && Window(t, i, v)[..k] == Window(t, j, v)[..k] && Window(t, i, v)[k] != Window(t, j, v)[k]
    ensures SufLess(t, i, j) <==> Window(t, i, v)[k] < Window(t, j, v)[k]
  {
    k := DifferenceWithin(t, i, j, v);
    WindowsSame(t, i, j, v, k);
    FirstDifference(t, i, j, k);
  }

  /** Windows are the same exactly when their padded characters agree. */
  lemma WindowsAgree(t: Text, i: nat, j: nat, v: nat)
    ensures Window(t, i, v) == Window(t, j, v) <==> Agree(t, i, j, v)
  {
    if Agree(t, i, j, v) {
      WindowsSame(t, i, j, v, v);
      assert Window(t, i, v) == Window(t, i, v)[..v] && Window(t, j, v) == Window(t, j, v)[..v];
    } else {
      var k := WindowsDiffer(t, i, j, v);
    }
  }
}
