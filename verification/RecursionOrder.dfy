/**
 Why the suffixes of a recursion string order like the sample suffixes of its text: the string names the
 samples part after part, and each part goes on as the text does, up to its end.  Behind the end of a part, where
 the next part follows, the order is right under a condition on what follows (`EndsInOrder`).
 */
module RecursionOrder {
  import opened Arithmetic
  import opened Suffixes
  import opened DifferenceCover

  // ---------------------------------------------------------------- suffixes of the recursion string

  /** Sample `m` is the last of its part, and more parts follow. */
  predicate EndsPart(c: Cover, n: nat, m: nat)
    requires c.period > 0 && c.residues != []
  {
    PartEnds(c, n, BlockOf(c, m), PartOf(c, m))
  }

  /** The last tuple of every part but the last occurs only once, so that it separates the parts. */
  ghost predicate Separated(c: Cover, t: Text)
    requires c.period > 0 && c.residues != []
  {
    forall m: nat, m': nat | m < |Samples(c, |t|)| && m' < |Samples(c, |t|)| && m != m' && EndsPart(c, |t|, m) ::
      !SameTuple(c, t, m, m')
  }

  /** Two samples have the same padded tuple. */
  ghost predicate SameTuple(c: Cover, t: Text, m: nat, m': nat)
    requires c.residues != []
  {
    Agree(t, SamplePosition(c, m), SamplePosition(c, m'), c.period)
  }

  /** Samples are the positions of their residues up to the end of the text, the end for all parts but the last. */
  lemma SampleBound(c: Cover, n: nat, b: nat, k: nat)
    requires ValidResidues(c) && k < |c.residues|
    ensures b < PartSize(c, n, k) <==> Position(c, b, k) < n || (Position(c, b, k) == n && k + 1 < |c.residues|)
  {
    PeriodSplit(n, b, c.residues[k], c.period);
  }

  lemma PeriodSplit(n: nat, b: nat, r: nat, v: nat)
    requires r < v
    ensures b * v + r < n <==> b < n / v || (b == n / v && r < n % v)
    ensures b * v + r == n <==> b == n / v && r == n % v
  {
    assert n == (n / v) * v + n % v;
    BlockPartOrder(b, r, n / v, n % v, v);
    BlockPartOrder(n / v, n % v, b, r, v);
  }

  lemma NextBlock(c: Cover, b: nat, b': nat, k: nat)
    requires ValidResidues(c) && k < |c.residues| && b' == b + 1
    ensures Position(c, b', k) == Position(c, b, k) + c.period
  {
    Distribute(b, 1, c.period);
  }

  /** Of two samples with the same tuple, whether they continue, and what their order then depends on. */
  lemma SameTupleOrder(c: Cover, t: Text, b: nat, k: nat, b': nat, k': nat)
    requires ValidResidues(c) && k < |c.residues| && k' < |c.residues|
    requires b < PartSize(c, |t|, k) && b' < PartSize(c, |t|, k') && (b, k) != (b', k')
    requires Agree(t, Position(c, b, k), Position(c, b', k'), c.period)
    requires b + 1 == PartSize(c, |t|, k) ==> k + 1 == |c.residues|
    requires b' + 1 == PartSize(c, |t|, k') ==> k' + 1 == |c.residues|
    ensures b + 1 == PartSize(c, |t|, k) ==> b' + 1 < PartSize(c, |t|, k')
    ensures b + 1 == PartSize(c, |t|, k) ==> SufLess(t, Position(c, b, k), Position(c, b', k'))
    ensures b + 1 < PartSize(c, |t|, k) && b' + 1 < PartSize(c, |t|, k') ==>
              (SufLess(t, Position(c, b, k), Position(c, b', k'))
               <==> SufLess(t, Position(c, b + 1, k), Position(c, b' + 1, k')))
  {
    var i, j := Position(c, b, k), Position(c, b', k');
    NextBlock(c, b, b + 1, k);
    NextBlock(c, b', b' + 1, k');
    SampleBound(c, |t|, b + 1, k);
    SampleBound(c, |t|, b' + 1, k');
    PositionOrder(c, b, k, b', k');
    PositionOrder(c, b', k', b, k);
    if b + 1 == PartSize(c, |t|, k) {
      SampleBound(c, |t|, b', k');
      ShorterIsSmaller(t, i, j, c.period);
    } else if b' + 1 < PartSize(c, |t|, k') {
      SkipEqual(t, i, j, c.period);
    }
  }

  /** Place `b` of part `k` of the recursion string. */
  ghost function Place(c: Cover, n: nat, b: nat, k: nat): nat
    requires c.period > 0 && k < |c.residues|
  {
    PartStart(c, n, k) + b
  }

  /** The sample of block `b` and part `k`. */
  lemma SampleOf(c: Cover, n: nat, b: nat, k: nat) returns (m: nat)
    requires ValidResidues(c) && n > 0 && k < |c.residues| && b < PartSize(c, n, k)
    ensures m < |Samples(c, n)| && m == b * |c.residues| + k && BlockOf(c, m) == b && PartOf(c, m) == k
    ensures SamplePosition(c, m) == Position(c, b, k) && SamplePlace(c, n, m) == Place(c, n, b, k)
    ensures Place(c, n, b, k) < |Samples(c, n)|
  {
    m := b * |c.residues| + k;
    NumberParts(c, b, k);
    SampleNumbers(c, n, b, k, m);
    PlaceBound(c, n, m);
  }

  /** Block `b` is the last of part `k`, and more parts follow. */
  predicate PartEnds(c: Cover, n: nat, b: nat, k: nat)
    requires c.period > 0 && k < |c.residues|
  {
    k + 1 < |c.residues| && b + 1 == PartSize(c, n, k)
  }

  /** The last place of the last part is the end of the recursion string. */
  lemma LastPlace(c: Cover, n: nat, b: nat, k: nat)
    requires ValidResidues(c) && n > 0 && k < |c.residues| && b < PartSize(c, n, k)
    ensures b + 1 == PartSize(c, n, k) && k + 1 == |c.residues| ==> Place(c, n, b, k) + 1 == |Samples(c, n)|
    ensures b + 1 < PartSize(c, n, k) ==> Place(c, n, b, k) + 1 < |Samples(c, n)|
  {
    SubproblemHoldsSamples(c, n);
    if b + 1 < PartSize(c, n, k) { var m := SampleOf(c, n, b + 1, k); }
  }

  /** `s` names every sample, in the order of the padded tuples. */
  ghost predicate NamesTuples(c: Cover, t: Text, s: Text)
    requires ValidResidues(c)
  {
    && |s| == |Samples(c, |t|)|
    && forall m: nat, m': nat | m < |s| && m' < |s| :: NamesInOrder(c, t, s, m, m')
  }

  ghost predicate NamesInOrder(c: Cover, t: Text, s: Text, m: nat, m': nat)
    requires ValidResidues(c)
  {
    var x, y, i, j := SamplePlace(c, |t|, m), SamplePlace(c, |t|, m'), SamplePosition(c, m), SamplePosition(c, m');
    x < |s| && y < |s| && (s[x] < s[y] <==> !Agree(t, i, j, c.period) && SufLess(t, i, j))
  }

  lemma NameOrderAt(c: Cover, t: Text, s: Text, b: nat, k: nat, b': nat, k': nat)
    requires ValidResidues(c) && NamesTuples(c, t, s) && k < |c.residues| && k' < |c.residues|
    requires |t| > 0 && b < PartSize(c, |t|, k) && b' < PartSize(c, |t|, k')
    ensures Place(c, |t|, b, k) < |s| && Place(c, |t|, b', k') < |s|
    ensures s[Place(c, |t|, b, k)] < s[Place(c, |t|, b', k')]
       <==> !Agree(t, Position(c, b, k), Position(c, b', k'), c.period)
            && SufLess(t, Position(c, b, k), Position(c, b', k'))
  {
    var m := SampleOf(c, |t|, b, k);
    var m' := SampleOf(c, |t|, b', k');
    assert NamesInOrder(c, t, s, m, m');
  }

  lemma SameNames(c: Cover, t: Text, s: Text, b: nat, k: nat, b': nat, k': nat)
    requires ValidResidues(c) && NamesTuples(c, t, s) && k < |c.residues| && k' < |c.residues|
    requires |t| > 0 && b < PartSize(c, |t|, k) && b' < PartSize(c, |t|, k')
    requires Agree(t, Position(c, b, k), Position(c, b', k'), c.period)
    requires Place(c, |t|, b, k) < |Samples(c, |t|)| && Place(c, |t|, b', k') < |Samples(c, |t|)|
    ensures s[Place(c, |t|, b, k)] == s[Place(c, |t|, b', k')]
  {
    AgreeSymmetric(t, Position(c, b, k), Position(c, b', k'), c.period);
    NameOrderAt(c, t, s, b, k, b', k');
    NameOrderAt(c, t, s, b', k', b, k);
  }

  lemma HeadDecides(s: Text, x: nat, y: nat)
    requires x < |s| && y < |s|
    ensures s[x] != s[y] ==> (SufLess(s, x, y) <==> s[x] < s[y])
    ensures s[x] == s[y] ==> (SufLess(s, x, y) <==> SufLess(s, x + 1, y + 1))
  {
  }

  lemma SamplesComparable(c: Cover, t: Text, b: nat, k: nat, b': nat, k': nat)
    requires ValidResidues(c) && k < |c.residues| && k' < |c.residues|
    requires |t| > 0 && b < PartSize(c, |t|, k) && b' < PartSize(c, |t|, k') && (b, k) != (b', k')
    ensures Position(c, b, k) != Position(c, b', k')
    ensures SufLess(t, Position(c, b, k), Position(c, b', k')) <==> !SufLess(t, Position(c, b', k'), Position(c, b, k))
  {
    PositionOrder(c, b, k, b', k');
    PositionOrder(c, b', k', b, k);
    SampleBound(c, |t|, b, k);
    SampleBound(c, |t|, b', k');
    SufTotal(t, Position(c, b, k), Position(c, b', k'));
  }

  lemma DifferentNames(c: Cover, t: Text, s: Text, b: nat, k: nat, b': nat, k': nat)
    requires ValidResidues(c) && NamesTuples(c, t, s) && k < |c.residues| && k' < |c.residues|
    requires |t| > 0 && b < PartSize(c, |t|, k) && b' < PartSize(c, |t|, k') && (b, k) != (b', k')
    requires !Agree(t, Position(c, b, k), Position(c, b', k'), c.period)
    requires Place(c, |t|, b, k) < |Samples(c, |t|)| && Place(c, |t|, b', k') < |Samples(c, |t|)|
    ensures SufLess(s, Place(c, |t|, b, k), Place(c, |t|, b', k'))
       <==> SufLess(t, Position(c, b, k), Position(c, b', k'))
  {
    var i, j := Position(c, b, k), Position(c, b', k');
    NameOrderAt(c, t, s, b, k, b', k');
    NameOrderAt(c, t, s, b', k', b, k);
    if Agree(t, j, i, c.period) { AgreeSymmetric(t, j, i, c.period); }
    SamplesComparable(c, t, b, k, b', k');
    HeadDecides(s, Place(c, |t|, b, k), Place(c, |t|, b', k'));
  }

  /** The recursion string orders two samples like their suffixes. */
  ghost predicate OrderedAs(c: Cover, t: Text, s: Text, b: nat, k: nat, b': nat, k': nat)
    requires c.period > 0 && k < |c.residues| && k' < |c.residues|
  {
    SufLess(s, Place(c, |t|, b, k), Place(c, |t|, b', k')) <==> SufLess(t, Position(c, b, k), Position(c, b', k'))
  }

  lemma SwapOrdered(c: Cover, t: Text, s: Text, b: nat, k: nat, b': nat, k': nat)
    requires ValidResidues(c) && |s| == |Samples(c, |t|)| && k < |c.residues| && k' < |c.residues|
    requires |t| > 0 && b < PartSize(c, |t|, k) && b' < PartSize(c, |t|, k') && (b, k) != (b', k')
    requires OrderedAs(c, t, s, b', k', b, k)
    ensures OrderedAs(c, t, s, b, k, b', k')
  {
    PlacesComparable(c, t, s, b, k, b', k');
    SamplesComparable(c, t, b, k, b', k');
  }

  lemma PlacesComparable(c: Cover, t: Text, s: Text, b: nat, k: nat, b': nat, k': nat)
    requires ValidResidues(c) && |s| == |Samples(c, |t|)| && k < |c.residues| && k' < |c.residues|
    requires |t| > 0 && b < PartSize(c, |t|, k) && b' < PartSize(c, |t|, k') && (b, k) != (b', k')
    ensures SufLess(s, Place(c, |t|, b, k), Place(c, |t|, b', k'))
       <==> !SufLess(s, Place(c, |t|, b', k'), Place(c, |t|, b, k))
  {
    var m := SampleOf(c, |t|, b, k);
    var m' := SampleOf(c, |t|, b', k');
    PlaceOrder(c, |t|, m, b, k, m', b', k');
    SufTotal(s, Place(c, |t|, b, k), Place(c, |t|, b', k'));
  }

  // ---------------------------------------------------------------- samples with the same tuple

  /** A sample at the end of the last part: the recursion string ends, and so do the suffix's own characters. */
  lemma EndingSample(c: Cover, t: Text, b: nat, k: nat, b': nat, k': nat)
    requires ValidResidues(c) && k < |c.residues| && k' < |c.residues|
    requires |t| > 0 && b < PartSize(c, |t|, k) && b' < PartSize(c, |t|, k') && (b, k) != (b', k')
    requires Agree(t, Position(c, b, k), Position(c, b', k'), c.period) && b + 1 == PartSize(c, |t|, k)
    requires !PartEnds(c, |t|, b, k) && !PartEnds(c, |t|, b', k')
    ensures b' + 1 < PartSize(c, |t|, k')
    ensures Place(c, |t|, b, k) + 1 == |Samples(c, |t|)| && Place(c, |t|, b', k') + 1 < |Samples(c, |t|)|
    ensures SufLess(t, Position(c, b, k), Position(c, b', k'))
  {
    SameTupleOrder(c, t, b, k, b', k');
    LastPlace(c, |t|, b, k);
    LastPlace(c, |t|, b', k');
  }

  lemma EndingOrder(c: Cover, t: Text, s: Text, b: nat, k: nat, b': nat, k': nat)
    requires ValidResidues(c) && NamesTuples(c, t, s) && k < |c.residues| && k' < |c.residues|
    requires |t| > 0 && b < PartSize(c, |t|, k) && b' < PartSize(c, |t|, k') && (b, k) != (b', k')
    requires Agree(t, Position(c, b, k), Position(c, b', k'), c.period) && b + 1 == PartSize(c, |t|, k)
    requires !PartEnds(c, |t|, b, k) && !PartEnds(c, |t|, b', k')
    ensures OrderedAs(c, t, s, b, k, b', k')
  {
    EndingSample(c, t, b, k, b', k');
    SameNames(c, t, s, b, k, b', k');
    HeadDecides(s, Place(c, |t|, b, k), Place(c, |t|, b', k'));
  }

  lemma ContinuingOrder(c: Cover, t: Text, s: Text, b: nat, k: nat, b': nat, k': nat)
    requires ValidResidues(c) && NamesTuples(c, t, s) && k < |c.residues| && k' < |c.residues|
    requires |t| > 0 && Continue(c, t, b, k, b', k') && (b, k) != (b', k')
    ensures OrderedAs(c, t, s, b, k, b', k') <==> OrderedAs(c, t, s, b + 1, k, b' + 1, k')
  {
    var m := SampleOf(c, |t|, b, k);
    var m' := SampleOf(c, |t|, b', k');
    SameTupleOrder(c, t, b, k, b', k');
    SameNames(c, t, s, b, k, b', k');
    HeadDecides(s, Place(c, |t|, b, k), Place(c, |t|, b', k'));
  }

  /** Both samples continue after the same tuple. */
  ghost predicate Continue(c: Cover, t: Text, b: nat, k: nat, b': nat, k': nat)
    requires c.period > 0 && k < |c.residues| && k' < |c.residues|
  {
    && Agree(t, Position(c, b, k), Position(c, b', k'), c.period)
    && b + 1 < PartSize(c, |t|, k) && b' + 1 < PartSize(c, |t|, k')
  }

  /** The end of a part has the tuple of another sample. */
  ghost predicate SharesEnd(c: Cover, t: Text, b: nat, k: nat, b': nat, k': nat)
    requires c.period > 0 && k < |c.residues| && k' < |c.residues|
  {
    PartEnds(c, |t|, b, k) && Agree(t, Position(c, b, k), Position(c, b', k'), c.period)
  }

  lemma SharesEndSymmetric(c: Cover, t: Text, b: nat, k: nat, b': nat, k': nat)
    requires c.period > 0 && k < |c.residues| && k' < |c.residues|
    requires !SharesEnd(c, t, b', k', b, k) && Agree(t, Position(c, b, k), Position(c, b', k'), c.period)
    ensures !PartEnds(c, |t|, b', k') && Agree(t, Position(c, b', k'), Position(c, b, k), c.period)
  {
    AgreeSymmetric(t, Position(c, b, k), Position(c, b', k'), c.period);
  }

  lemma DecidedOrder(c: Cover, t: Text, s: Text, b: nat, k: nat, b': nat, k': nat)
    requires ValidResidues(c) && NamesTuples(c, t, s) && k < |c.residues| && k' < |c.residues|
    requires |t| > 0 && b < PartSize(c, |t|, k) && b' < PartSize(c, |t|, k') && (b, k) != (b', k')
    requires !Continue(c, t, b, k, b', k') && !SharesEnd(c, t, b, k, b', k') && !SharesEnd(c, t, b', k', b, k)
    ensures OrderedAs(c, t, s, b, k, b', k')
  {
    if !Agree(t, Position(c, b, k), Position(c, b', k'), c.period) {
      var m := SampleOf(c, |t|, b, k);
      var m' := SampleOf(c, |t|, b', k');
      DifferentNames(c, t, s, b, k, b', k');
    } else {
      SharesEndSymmetric(c, t, b, k, b', k');
      if b + 1 == PartSize(c, |t|, k) {
        EndingOrder(c, t, s, b, k, b', k');
      } else {
        EndingOrder(c, t, s, b', k', b, k);
        SwapOrdered(c, t, s, b, k, b', k');
      }
    }
  }

  // ---------------------------------------------------------------- the ends of the parts

  /** Behind the end of a part, the text goes on with nothing: the earlier sample is the larger one. */
  lemma EndOfPartOrder(c: Cover, t: Text, b: nat, k: nat, b': nat, k': nat)
    requires ValidResidues(c) && k < |c.residues| && k' < |c.residues| && SharesEnd(c, t, b, k, b', k')
    requires |t| > 0 && b < PartSize(c, |t|, k) && b' < PartSize(c, |t|, k') && (b, k) != (b', k')
    ensures SufLess(t, Position(c, b, k), Position(c, b', k')) <==> Position(c, b', k') < Position(c, b, k)
  {
    var i, j := Position(c, b, k), Position(c, b', k');
    NextBlock(c, b, b + 1, k);
    SampleBound(c, |t|, b, k);
    SampleBound(c, |t|, b + 1, k);
    SampleBound(c, |t|, b', k');
    SamplesComparable(c, t, b, k, b', k');
    if j < i {
      ShorterIsSmaller(t, i, j, c.period);
    } else {
      AgreeSymmetric(t, i, j, c.period);
      ShorterIsSmaller(t, j, i, c.period);
    }
  }

  /** What the recursion string holds behind the two samples is less for the later sample: there the next part
      follows the one that ends, and its own part continues the other. */
  ghost predicate EndInOrder(c: Cover, t: Text, s: Text, b: nat, k: nat, b': nat, k': nat)
    requires c.period > 0 && k < |c.residues| && k' < |c.residues|
  {
    SufLess(s, Place(c, |t|, b, k) + 1, Place(c, |t|, b', k') + 1) <==> Position(c, b', k') < Position(c, b, k)
  }

  lemma EndInOrderIsExact(c: Cover, t: Text, s: Text, b: nat, k: nat, b': nat, k': nat)
    requires ValidResidues(c) && NamesTuples(c, t, s) && k < |c.residues| && k' < |c.residues|
    requires |t| > 0 && b < PartSize(c, |t|, k) && b' < PartSize(c, |t|, k') && (b, k) != (b', k')
    requires SharesEnd(c, t, b, k, b', k')
    ensures OrderedAs(c, t, s, b, k, b', k') <==> EndInOrder(c, t, s, b, k, b', k')
  {
    var m := SampleOf(c, |t|, b, k);
    var m' := SampleOf(c, |t|, b', k');
    EndOfPartOrder(c, t, b, k, b', k');
    SameNames(c, t, s, b, k, b', k');
    HeadDecides(s, Place(c, |t|, b, k), Place(c, |t|, b', k'));
  }

  /** Every sample that ends a part, but the last, is in order with every other sample of the same tuple. */
  ghost predicate EndsInOrder(c: Cover, t: Text, s: Text)
    requires c.period > 0 && c.residues != []
  {
    forall m: nat, m': nat | m < |Samples(c, |t|)| && m' < |Samples(c, |t|)| && m != m' && EndsPart(c, |t|, m) ::
      EndFits(c, t, s, m, m')
  }

  ghost predicate EndFits(c: Cover, t: Text, s: Text, m: nat, m': nat)
    requires c.period > 0 && c.residues != []
  {
    SameTuple(c, t, m, m') ==> EndInOrder(c, t, s, BlockOf(c, m), PartOf(c, m), BlockOf(c, m'), PartOf(c, m'))
  }

  lemma EndAt(c: Cover, t: Text, s: Text, b: nat, k: nat, b': nat, k': nat)
    requires ValidResidues(c) && EndsInOrder(c, t, s) && k < |c.residues| && k' < |c.residues|
    requires |t| > 0 && b < PartSize(c, |t|, k) && b' < PartSize(c, |t|, k') && (b, k) != (b', k')
    requires SharesEnd(c, t, b, k, b', k')
    ensures EndInOrder(c, t, s, b, k, b', k')
  {
    var m := SampleOf(c, |t|, b, k);
    var m' := SampleOf(c, |t|, b', k');
    assert m != m' && EndsPart(c, |t|, m);
    assert EndFits(c, t, s, m, m');
  }

  lemma SharedEndOrdered(c: Cover, t: Text, s: Text, b: nat, k: nat, b': nat, k': nat)
    requires ValidResidues(c) && NamesTuples(c, t, s) && EndsInOrder(c, t, s) && k < |c.residues| && k' < |c.residues|
    requires |t| > 0 && b < PartSize(c, |t|, k) && b' < PartSize(c, |t|, k') && (b, k) != (b', k')
    requires SharesEnd(c, t, b, k, b', k')
    ensures OrderedAs(c, t, s, b, k, b', k')
  {
    EndInOrderIsExact(c, t, s, b, k, b', k');
    EndAt(c, t, s, b, k, b', k');
  }

  /** Suffixes of the recursion string order like the sample suffixes of the text. */
  lemma {:induction false} RecursionStringSuffixes(c: Cover, t: Text, s: Text, b: nat, k: nat, b': nat, k': nat)
    requires ValidResidues(c) && NamesTuples(c, t, s) && EndsInOrder(c, t, s) && k < |c.residues| && k' < |c.residues|
    requires |t| > 0 && b < PartSize(c, |t|, k) && b' < PartSize(c, |t|, k') && (b, k) != (b', k')
    ensures OrderedAs(c, t, s, b, k, b', k')
    decreases PartSize(c, |t|, k) - b
  {
    if Continue(c, t, b, k, b', k') {
      RecursionStringSuffixes(c, t, s, b + 1, k, b' + 1, k');
      ContinuingOrder(c, t, s, b, k, b', k');
    } else if SharesEnd(c, t, b, k, b', k') {
      SharedEndOrdered(c, t, s, b, k, b', k');
    } else if SharesEnd(c, t, b', k', b, k) {
      SharedEndOrdered(c, t, s, b', k', b, k);
      SwapOrdered(c, t, s, b, k, b', k');
    } else {
      DecidedOrder(c, t, s, b, k, b', k');
    }
  }

  /** The recursion string orders samples `m` and `m'` like their suffixes. */
  ghost predicate Ordered(c: Cover, t: Text, s: Text, m: nat, m': nat)
    requires c.period > 0 && c.residues != []
  {
    OrderedAs(c, t, s, BlockOf(c, m), PartOf(c, m), BlockOf(c, m'), PartOf(c, m'))
  }

  /** The recursion string orders all samples like their suffixes. */
  ghost predicate OrdersSamples(c: Cover, t: Text, s: Text)
    requires c.period > 0 && c.residues != []
  {
    forall m: nat, m': nat | m < |Samples(c, |t|)| && m' < |Samples(c, |t|)| && m != m' :: Ordered(c, t, s, m, m')
  }

  lemma OrderedByPart(c: Cover, t: Text, s: Text, m: nat, m': nat)
    requires ValidResidues(c) && m < |Samples(c, |t|)| && m' < |Samples(c, |t|)| && m != m'
    ensures Ordered(c, t, s, m, m')
       <==> (SufLess(s, SamplePlace(c, |t|, m), SamplePlace(c, |t|, m'))
             <==> SufLess(t, SamplePosition(c, m), SamplePosition(c, m')))
    ensures InPart(c, |t|, m, BlockOf(c, m), PartOf(c, m)) && InPart(c, |t|, m', BlockOf(c, m'), PartOf(c, m'))
    ensures (BlockOf(c, m), PartOf(c, m)) != (BlockOf(c, m'), PartOf(c, m'))
  {
    SampleInPart(c, |t|, m);
    SampleInPart(c, |t|, m');
  }

  lemma RecursionStringOrdersSamples(c: Cover, t: Text, s: Text, m: nat, m': nat)
    requires ValidResidues(c) && NamesTuples(c, t, s) && EndsInOrder(c, t, s)
    requires m < |Samples(c, |t|)| && m' < |Samples(c, |t|)| && m != m'
    ensures Ordered(c, t, s, m, m')
  {
    OrderedByPart(c, t, s, m, m');
    RecursionStringSuffixes(c, t, s, BlockOf(c, m), PartOf(c, m), BlockOf(c, m'), PartOf(c, m'));
  }

  lemma OrderedEndFits(c: Cover, t: Text, s: Text, m: nat, m': nat)
    requires ValidResidues(c) && NamesTuples(c, t, s) && OrdersSamples(c, t, s)
    requires m < |Samples(c, |t|)| && m' < |Samples(c, |t|)| && m != m' && EndsPart(c, |t|, m)
    ensures EndFits(c, t, s, m, m')
  {
    assert Ordered(c, t, s, m, m');
    OrderedByPart(c, t, s, m, m');
    if SameTuple(c, t, m, m') {
      EndInOrderIsExact(c, t, s, BlockOf(c, m), PartOf(c, m), BlockOf(c, m'), PartOf(c, m'));
    }
  }

  /** The recursion string orders all samples like their suffixes exactly when it does behind the ends of parts. */
  lemma RecursionOrderIsExact(c: Cover, t: Text, s: Text)
    requires ValidResidues(c) && NamesTuples(c, t, s)
    ensures OrdersSamples(c, t, s) <==> EndsInOrder(c, t, s)
  {
    if EndsInOrder(c, t, s) {
      forall m: nat, m': nat | m < |Samples(c, |t|)| && m' < |Samples(c, |t|)| && m != m'
        ensures Ordered(c, t, s, m, m') {
        RecursionStringOrdersSamples(c, t, s, m, m');
      }
    }
    if OrdersSamples(c, t, s) {
      forall m: nat, m': nat | m < |Samples(c, |t|)| && m' < |Samples(c, |t|)| && m != m' && EndsPart(c, |t|, m)
        ensures EndFits(c, t, s, m, m') {
        OrderedEndFits(c, t, s, m, m');
      }
    }
  }

  /** When the ends of parts share no tuple, there is nothing to compare. */
  lemma SeparatedEnds(c: Cover, t: Text, s: Text)
    requires c.period > 0 && c.residues != [] && Separated(c, t)
    ensures EndsInOrder(c, t, s)
  {
    forall m: nat, m': nat | m < |Samples(c, |t|)| && m' < |Samples(c, |t|)| && m != m' && EndsPart(c, |t|, m)
      ensures EndFits(c, t, s, m, m') {
      assert !SameTuple(c, t, m, m');
    }
  }
}
