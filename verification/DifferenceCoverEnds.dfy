/**
 On which texts the recursion of DC3Recursive (examples/suffix_sorting/dc3.cpp:378-421) and DC7Recursive
 (examples/suffix_sorting/dc7.cpp:536-579) ends: it goes on while two samples have the same tuple.
 */
module DifferenceCoverEnds {
  import opened Lists
  import opened Suffixes
  import opened DifferenceCover
  import opened RecursionOrder
  import opened SampleRanks
  import opened FragmentMerge
  import opened DifferenceCoverSort

  /** The recursion ends within `k` more levels. */
  ghost predicate EndsWithin(c: Cover, t: Text, k: nat)
    requires ValidCover(c)
    decreases k
  {
    |Samples(c, |t|)| < 2 || NamesUnique(c, t) || (k > 0 && EndsWithin(c, RecursionString(c, t), k - 1))
  }

  ghost predicate Ends(c: Cover, t: Text)
    requires ValidCover(c)
  {
    exists k: nat :: EndsWithin(c, t, k)
  }

  lemma EndsAbove(c: Cover, t: Text)
    requires ValidCover(c) && |Samples(c, |t|)| >= 2 && !NamesUnique(c, t)
    ensures Ends(c, t) <==> Ends(c, RecursionString(c, t))
  {
    if Ends(c, t) {
      var k: nat :| EndsWithin(c, t, k);
      assert EndsWithin(c, RecursionString(c, t), k - 1);
    }
    if Ends(c, RecursionString(c, t)) {
      var k: nat :| EndsWithin(c, RecursionString(c, t), k);
      assert EndsWithin(c, t, k + 1);
    }
  }

  lemma EndsAtOnce(c: Cover, t: Text)
    requires ValidCover(c) && (|Samples(c, |t|)| < 2 || NamesUnique(c, t))
    ensures Ends(c, t)
  {
    assert EndsWithin(c, t, 0);
  }

  lemma SamplesFewer(c: Cover, n: nat)
    requires ValidCover(c) && (c == Dc3() || c == Dc7())
    ensures c == Dc3() && |Samples(c, n)| >= 2 ==> |Samples(c, n)| < n
    ensures c == Dc7() && n > 2 ==> 2 <= |Samples(c, n)| < n
    ensures c == Dc7() && 0 < n <= 2 ==> |Samples(c, n)| == 2
  {
    if n > 0 {
      SubproblemHoldsSamples(c, n);
      SizesAsComputed(n);
    }
  }

  /** The recursion of DC3 ends on every text. */
  lemma {:induction false} Dc3Ends(c: Cover, t: Text)
    requires c == Dc3() && ValidCover(c)
    ensures Ends(c, t)
    decreases |t|
  {
    SamplesFewer(c, |t|);
    if |Samples(c, |t|)| < 2 || NamesUnique(c, t) {
      EndsAtOnce(c, t);
    } else {
      Dc3Ends(c, RecursionString(c, t));
      EndsAbove(c, t);
    }
  }

  ghost predicate AllZero(t: Text) { forall i | 0 <= i < |t| :: t[i] == 0 }

  lemma ZerosAgree(t: Text, i: nat, j: nat, h: nat)
    requires AllZero(t)
    ensures Agree(t, i, j, h)
    decreases h
  {
    if h > 0 { ZerosAgree(t, i + 1, j + 1, h - 1); }
  }

  /** All samples have the same tuple. */
  ghost predicate OneTuple(c: Cover, t: Text)
    requires c.period > 0 && c.residues != []
  {
    forall m: nat, m': nat | m < |Samples(c, |t|)| && m' < |Samples(c, |t|)| :: SameTuple(c, t, m, m')
  }

  /** The names are all zero exactly when all samples have the same tuple. */
  lemma ZeroNames(c: Cover, t: Text)
    requires ValidCover(c) && |Samples(c, |t|)| >= 2
    ensures AllZero(RecursionString(c, t))
       <==> OneTuple(c, t)
  {
    var s := RecursionString(c, t);
    RecursionStringNames(c, t);
    if AllZero(s) {
      forall m: nat, m': nat | m < |s| && m' < |s| ensures SameTuple(c, t, m, m') { EqualNamesAgree(c, t, s, m, m'); }
    }
    if OneTuple(c, t) {
      forall x: nat | x < |s| ensures s[x] == 0 { OneNameIsZero(c, t, s, x); }
    }
  }

  lemma EqualNamesAgree(c: Cover, t: Text, s: Text, m: nat, m': nat)
    requires ValidCover(c) && NamesTuples(c, t, s) && AllZero(s) && m < |s| && m' < |s|
    ensures SameTuple(c, t, m, m')
  {
    var i, j := SamplePosition(c, m), SamplePosition(c, m');
    assert NamesInOrder(c, t, s, m, m') && NamesInOrder(c, t, s, m', m);
    if !Agree(t, i, j, c.period) {
      if Agree(t, j, i, c.period) { AgreeSymmetric(t, j, i, c.period); }
      if m != m' { SamplesNotBoth(c, t, m, m'); } else { AgreeSelf(t, i, c.period); }
    }
  }

  lemma OneNameIsZero(c: Cover, t: Text, s: Text, x: nat)
    requires ValidCover(c) && |Samples(c, |t|)| >= 2 && s == RecursionString(c, t) && NamesTuples(c, t, s) && x < |s|
    requires OneTuple(c, t)
    ensures s[x] == 0
  {
    var m := SampleAtPlace(c, |t|, x);
    NamesHaveNoGaps(c, t, m, 0);
    var y := IndexIn(0, s);
    var m' := SampleAtPlace(c, |t|, y);
    OneTupleOneName(c, t, s, m, m');
  }

  lemma SampleAtPlace(c: Cover, n: nat, x: nat) returns (m: nat)
    requires ValidResidues(c) && x < |Samples(c, n)|
    ensures m < |Samples(c, n)| && SamplePlace(c, n, m) == x
  {
    PlacesArePerm(c, n);
    PermHits(Places(c, n), |Samples(c, n)|, x);
    m := IndexIn(x, Places(c, n));
  }

  lemma OneTupleOneName(c: Cover, t: Text, s: Text, m: nat, m': nat)
    requires ValidCover(c) && NamesTuples(c, t, s) && OneTuple(c, t) && m < |s| && m' < |s|
    ensures SamplePlace(c, |t|, m) < |s| && SamplePlace(c, |t|, m') < |s|
    ensures s[SamplePlace(c, |t|, m)] == s[SamplePlace(c, |t|, m')]
  {
    assert SameTuple(c, t, m, m') && SameTuple(c, t, m', m);
    assert NamesInOrder(c, t, s, m, m') && NamesInOrder(c, t, s, m', m);
  }

  lemma OneTupleAt(c: Cover, t: Text, b: nat, k: nat, b': nat, k': nat)
    requires ValidCover(c) && OneTuple(c, t) && t != [] && k < |c.residues| && k' < |c.residues|
    requires b < PartSize(c, |t|, k) && b' < PartSize(c, |t|, k')
    ensures Agree(t, Position(c, b, k), Position(c, b', k'), c.period)
  {
    var m := SampleOf(c, |t|, b, k);
    var m' := SampleOf(c, |t|, b', k');
    assert SameTuple(c, t, m, m');
  }

  lemma FirstTuples(c: Cover, t: Text, b: nat, e: nat)
    requires c == Dc7() && ValidCover(c) && t != [] && OneTuple(c, t) && b <= e && e == |t| / 7
    ensures Agree(t, 7 * b, 0, 7) && Agree(t, 0, 1, 7) && Agree(t, 0, 7 * e, 7)
  {
    SizesAsComputed(|t|);
    OneTupleAt(c, t, b, 0, 0, 0);
    OneTupleAt(c, t, 0, 0, 0, 1);
    OneTupleAt(c, t, 0, 0, e, 0);
  }

  /** A text of DC7 with one tuple only is all zero. */
  lemma OneTupleIsZero(c: Cover, t: Text, i: nat)
    requires c == Dc7() && ValidCover(c) && i < |t| && OneTuple(c, t)
    ensures t[i] == 0
  {
    var b, d, e := i / 7, i % 7, |t| / 7;
    FirstTuples(c, t, b, e);
    AgreeAt(t, 7 * b, 0, 7, d);
    ConstantTuple(t, 6, d);
    AgreeAt(t, 0, 7 * e, 7, 6);
  }

  /** Characters that agree with their successors are all the same. */
  lemma {:induction false} ConstantTuple(t: Text, k: nat, d: nat)
    requires Agree(t, 0, 1, 7) && d <= k <= 6
    ensures At(t, d) == At(t, k)
    decreases k
  {
    if d < k {
      ConstantTuple(t, k - 1, d);
      AgreeAt(t, 0, 1, 7, k - 1);
    }
  }

  /** A recursion string of DC7 is all zero exactly when the text is. */
  lemma ZerosStay(c: Cover, t: Text)
    requires c == Dc7() && ValidCover(c) && t != [] && |Samples(c, |t|)| >= 2
    ensures AllZero(RecursionString(c, t)) <==> AllZero(t)
    ensures AllZero(t) ==> !NamesUnique(c, t)
  {
    ZeroNames(c, t);
    if AllZero(RecursionString(c, t)) {
      forall i: nat | i < |t| ensures t[i] == 0 { OneTupleIsZero(c, t, i); }
    }
    if AllZero(t) {
      forall m: nat, m': nat | m < |Samples(c, |t|)| && m' < |Samples(c, |t|)| ensures SameTuple(c, t, m, m') {
        ZerosAgree(t, SamplePosition(c, m), SamplePosition(c, m'), c.period);
      }
      assert SameTuple(c, t, 0, 1);
      RecursionEnds(c, t);
    }
  }

  lemma {:induction false} ZerosGoOn(c: Cover, t: Text, k: nat)
    requires c == Dc7() && ValidCover(c) && t != [] && AllZero(t)
    ensures !EndsWithin(c, t, k)
    decreases k
  {
    SamplesFewer(c, |t|);
    ZerosStay(c, t);
    if k > 0 { ZerosGoOn(c, RecursionString(c, t), k - 1); }
  }

  lemma TwoNames(c: Cover, t: Text)
    requires c == Dc7() && ValidCover(c) && 0 < |t| <= 2 && !AllZero(t) && |Samples(c, |t|)| == 2
    ensures NamesUnique(c, t)
  {
    RecursionEnds(c, t);
    if !TuplesDiffer(c, t) {
      TwoSame(c, t);
      forall i: nat | i < |t| ensures t[i] == 0 { OneTupleIsZero(c, t, i); }
    }
  }

  lemma TwoSame(c: Cover, t: Text)
    requires ValidCover(c) && |Samples(c, |t|)| == 2 && !TuplesDiffer(c, t)
    ensures OneTuple(c, t)
  {
    var m: nat, m': nat :| m < 2 && m' < 2 && m != m' && SameTuple(c, t, m, m');
    SameTupleSymmetric(c, t, m, m');
    AgreeSelf(t, SamplePosition(c, m), c.period);
    AgreeSelf(t, SamplePosition(c, m'), c.period);
    assert SameTuple(c, t, m, m) && SameTuple(c, t, m', m');
  }

  lemma {:induction false} NonZerosEnd(c: Cover, t: Text)
    requires c == Dc7() && ValidCover(c) && (t == [] || !AllZero(t))
    ensures Ends(c, t)
    decreases |t|
  {
    SamplesFewer(c, |t|);
    if |t| > 0 && |t| <= 2 { TwoNames(c, t); }
    if |Samples(c, |t|)| < 2 || NamesUnique(c, t) {
      EndsAtOnce(c, t);
    } else {
      ZerosStay(c, t);
      NonZerosEnd(c, RecursionString(c, t));
      EndsAbove(c, t);
    }
  }

  /** The recursion of DC7 ends exactly on the empty text and on texts with a character above the padding value. */
  lemma Dc7Ends(c: Cover, t: Text)
    requires c == Dc7() && ValidCover(c)
    ensures Ends(c, t) <==> t == [] || !AllZero(t)
  {
    if t == [] || !AllZero(t) {
      NonZerosEnd(c, t);
    } else {
      forall k: nat ensures !EndsWithin(c, t, k) { ZerosGoOn(c, t, k); }
    }
  }
}
