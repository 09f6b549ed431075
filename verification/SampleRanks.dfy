/**
 Naming the sample tuples and ranking the samples: the first half of DC3Recursive
 (examples/suffix_sorting/dc3.cpp:291-475) and DC7Recursive (examples/suffix_sorting/dc7.cpp:420-640).

 Every sample is named by its padded tuple of `period` characters.  Names order like tuples, and the
 suffixes of the recursion string, which lists the names part after part, order like the sample suffixes
 of the text exactly when what follows the ends of its parts is in order (RecursionOrder).
 */
module SampleRanks {
  import opened IntervalNumbers
  import opened Lists
  import opened Suffixes
  import opened DifferenceCover
  import opened RecursionOrder

  datatype IndexChars = IndexChars(index: nat, chars: seq<nat>)

  function TupleIndex(x: IndexChars): nat { x.index }

  function TupleChars(x: IndexChars): seq<nat> { x.chars }

  // ---------------------------------------------------------------- the pipelines

  /** Lexicographic comparison. */
  predicate CharsLess(a: seq<nat>, b: seq<nat>) {
    b != [] && (a == [] || a[0] < b[0] || (a[0] == b[0] && CharsLess(a[1..], b[1..])))
  }

  predicate ByChars(a: IndexChars, b: IndexChars) { CharsLess(a.chars, b.chars) }

  /** The sample positions with their tuples. */
  function Tuples(c: Cover, t: Text): (r: seq<IndexChars>)
    requires c.period > 0 && c.residues != []
    ensures |r| == |Samples(c, |t|)|
  {
    var s := Samples(c, |t|);
    seq(|s|, m requires 0 <= m < |s| => IndexChars(s[m], Window(t, s[m], c.period)))
  }

  function SortedTuples(c: Cover, t: Text): (r: seq<IndexChars>)
    requires c.period > 0 && c.residues != []
    ensures |r| == |Samples(c, |t|)|
  {
    Sort(Tuples(c, t), ByChars)
  }

  /** The lexicographic names of the sorted tuples, counted from zero. */
  function Lexnames(c: Cover, t: Text): (r: seq<nat>)
    requires c.period > 0 && c.residues != []
    ensures |Samples(c, |t|)| >= 2 ==> |r| == |Samples(c, |t|)|
  {
    Intervals(Map(TupleChars, SortedTuples(c, t)))
  }

  /** The test that ends the recursion. */
  predicate NamesUnique(c: Cover, t: Text)
    requires c.period > 0 && c.residues != []
  {
    Max(Lexnames(c, t)) + 1 == SubproblemSize(c, |t|)
  }

  function ZipNames(s: seq<IndexChars>, names: seq<nat>): (r: seq<IndexRank>)
    requires |s| == |names|
    ensures |r| == |s|
  {
    seq(|s|, i requires 0 <= i < |s| => IndexRank(s[i].index, names[i]))
  }

  function ResidueLess(c: Cover): (IndexRank, IndexRank) -> bool
    requires c.period > 0
  {
    (a: IndexRank, b: IndexRank) => ByResidue(c, a.index, b.index)
  }

  function BlockLess(c: Cover): (IndexRank, IndexRank) -> bool
    requires c.period > 0
  {
    (a: IndexRank, b: IndexRank) => ByBlock(c, a.index, b.index)
  }

  function PlaceInPartLess(c: Cover, n: nat): (IndexRank, IndexRank) -> bool
    requires c.period > 0 && c.residues != []
  {
    (a: IndexRank, b: IndexRank) => ByPlaceInPart(c, n, a.index, b.index)
  }

  /** The names of all samples, part after part. */
  function RecursionString(c: Cover, t: Text): (s: Text)
    requires c.period > 0 && c.residues != [] && |Samples(c, |t|)| >= 2
    ensures |s| == |Samples(c, |t|)|
  {
    Map(RankOf, Sort(ZipNames(SortedTuples(c, t), Lexnames(c, t)), ResidueLess(c)))
  }

  /** The list with ranks counted from one. */
  function NumberFromOne(s: seq<nat>): (r: seq<IndexRank>)
    ensures |r| == |s|
  {
    seq(|s|, i requires 0 <= i < |s| => IndexRank(s[i], i + 1))
  }

  function Interleave(order: seq<nat>, less: (IndexRank, IndexRank) -> bool): (r: seq<nat>)
    ensures |r| == |order|
  {
    Map(RankOf, Sort(NumberFromOne(order), less))
  }

  /** The ranks when all names are different. */
  function RanksFromNames(c: Cover, t: Text): (r: seq<nat>)
    requires c.period > 0 && c.residues != []
    ensures |r| == |Samples(c, |t|)|
  {
    Interleave(Map(TupleIndex, SortedTuples(c, t)), BlockLess(c))
  }

  /** The ranks from a suffix array of the recursion string. */
  function RanksFromRecursion(c: Cover, n: nat, sa: seq<nat>): (r: seq<nat>)
    requires c.period > 0 && c.residues != []
    ensures |r| == |sa|
  {
    Interleave(sa, PlaceInPartLess(c, n))
  }

  // ---------------------------------------------------------------- tuples

  lemma {:induction false} CharsIrreflexive(a: seq<nat>)
    ensures !CharsLess(a, a)
  {
    if a != [] { CharsIrreflexive(a[1..]); }
  }

  lemma {:induction false} CharsTotal(a: seq<nat>, b: seq<nat>)
    requires |a| == |b| && !CharsLess(a, b) && !CharsLess(b, a)
    ensures a == b
  {
    if a != [] {
      CharsTotal(a[1..], b[1..]);
      assert a == [a[0]] + a[1..] && b == [b[0]] + b[1..];
    }
  }

  lemma {:induction false} CharsTransitive(a: seq<nat>, b: seq<nat>, c: seq<nat>)
    requires CharsLess(a, b) && CharsLess(b, c)
    ensures CharsLess(a, c)
  {
    if a != [] && a[0] == b[0] == c[0] { CharsTransitive(a[1..], b[1..], c[1..]); }
  }

  lemma CharsIsOrder(a: seq<nat>, b: seq<nat>, c: seq<nat>)
    requires |a| == |b| == |c| && CharsLess(a, c)
    ensures CharsLess(a, b) || CharsLess(b, c)
  {
    if !CharsLess(a, b) && !CharsLess(b, c) {
      if CharsLess(b, a) { CharsTransitive(b, a, c); } else { CharsTotal(a, b); }
    }
  }

  lemma {:induction false} CharsLessAt(a: seq<nat>, b: seq<nat>, k: nat)
    requires |a| == |b| && k < |a| && a[..k] == b[..k] && a[k] != b[k]
    ensures CharsLess(a, b) <==> a[k] < b[k]
    decreases k
  {
    if k > 0 {
      assert a[..k][0] == b[..k][0];
      assert a[1..][..k - 1] == a[..k][1..] && b[1..][..k - 1] == b[..k][1..];
      CharsLessAt(a[1..], b[1..], k - 1);
    }
  }

  /** Tuples order like the suffixes they start, unless they are the same. */
  lemma TupleOrder(t: Text, i: nat, j: nat, v: nat)
    ensures Window(t, i, v) == Window(t, j, v) <==> Agree(t, i, j, v)
    ensures CharsLess(Window(t, i, v), Window(t, j, v)) <==> !Agree(t, i, j, v) && SufLess(t, i, j)
  {
    WindowsAgree(t, i, j, v);
    if Agree(t, i, j, v) {
      CharsIrreflexive(Window(t, i, v));
    } else {
      var k := WindowsDiffer(t, i, j, v);
      CharsLessAt(Window(t, i, v), Window(t, j, v), k);
    }
  }

  lemma TuplesAreOrdered(c: Cover, t: Text)
    requires c.period > 0 && c.residues != []
    ensures StrictWeakOrderOn(ByChars, Tuples(c, t))
  {
    var s := Tuples(c, t);
    forall x | x in s ensures !ByChars(x, x) { CharsIrreflexive(x.chars); }
    forall x, y, z | x in s && y in s && z in s && ByChars(x, y) && ByChars(y, z) ensures ByChars(x, z) {
      CharsTransitive(x.chars, y.chars, z.chars);
    }
    forall x, y, z | x in s && y in s && z in s && ByChars(x, z) ensures ByChars(x, y) || ByChars(y, z) {
      CharsIsOrder(x.chars, y.chars, z.chars);
    }
  }

  // ---------------------------------------------------------------- names

  /** Tuples in ascending order. */
  ghost predicate Ascending(s: seq<seq<nat>>, v: nat) {
    && (forall a | 0 <= a < |s| :: |s[a]| == v)
    && forall a, b | 0 <= a < b < |s| :: !CharsLess(s[b], s[a])
  }

  lemma Sandwiched(s: seq<seq<nat>>, v: nat, a: nat, m: nat, b: nat)
    requires Ascending(s, v) && a <= m <= b < |s| && s[a] == s[b]
    ensures s[a] == s[m]
  {
    if a < m < b { CharsTotal(s[a], s[m]); }
  }

  /** Equal names are equal tuples. */
  lemma SameNameSameTuple(s: seq<seq<nat>>, v: nat, a: nat, b: nat)
    requires Ascending(s, v) && |s| >= 2 && a <= b < |s|
    ensures Intervals(s)[a] == Intervals(s)[b] <==> s[a] == s[b]
  {
    if Intervals(s)[a] == Intervals(s)[b] { SameIntervalSameItem(s, a, b); }
    if s[a] == s[b] {
      forall m: nat | a <= m <= b ensures s[m] == s[a] { Sandwiched(s, v, a, m, b); }
      EqualRunSameInterval(s, a, b);
    }
  }

  /** Names order like tuples. */
  lemma NamesOrder(s: seq<seq<nat>>, v: nat, a: nat, b: nat)
    requires Ascending(s, v) && |s| >= 2 && a < |s| && b < |s|
    ensures Intervals(s)[a] < Intervals(s)[b] <==> CharsLess(s[a], s[b])
  {
    CharsIrreflexive(s[a]);
    if a < b {
      SameNameSameTuple(s, v, a, b);
      IntervalsAscend(s, a, b);
      if s[a] != s[b] && !CharsLess(s[a], s[b]) { CharsTotal(s[a], s[b]); }
    } else if b < a {
      SameNameSameTuple(s, v, b, a);
      IntervalsAscend(s, b, a);
    }
  }

  /** `g` lists the sample numbers in the order of the sorted tuples. */
  ghost predicate TupleSorted(c: Cover, t: Text, g: seq<nat>)
    requires c.period > 0 && c.residues != []
  {
    var s := SortedTuples(c, t);
    && IsPerm(g, |s|)
    && forall i: nat | i < |s| ::
         s[i] == IndexChars(SamplePosition(c, g[i]), Window(t, SamplePosition(c, g[i]), c.period))
  }

  lemma SortTuples(c: Cover, t: Text) returns (g: seq<nat>)
    requires ValidResidues(c)
    ensures TupleSorted(c, t, g)
  {
    g := Rearrangement(Tuples(c, t), SortedTuples(c, t));
    if |t| > 0 { SamplesAreNumbered(c, |t|); }
    forall i: nat | i < |g|
      ensures SortedTuples(c, t)[i]
           == IndexChars(SamplePosition(c, g[i]), Window(t, SamplePosition(c, g[i]), c.period)) {
      assert SampleIs(c, g[i], Samples(c, |t|)[g[i]]);
    }
  }

  lemma SortedTuplesAscend(c: Cover, t: Text, g: seq<nat>)
    requires ValidResidues(c) && TupleSorted(c, t, g)
    ensures Ascending(Map(TupleChars, SortedTuples(c, t)), c.period)
  {
    var s := SortedTuples(c, t);
    TuplesAreOrdered(c, t);
    forall a, b | 0 <= a < b < |s| ensures !CharsLess(s[b].chars, s[a].chars) { assert !ByChars(s[b], s[a]); }
    forall a: nat | a < |s| ensures |s[a].chars| == c.period { }
  }

  // ---------------------------------------------------------------- the recursion string

  /** The number of `x` in a list without repetitions. */
  ghost function NumberIn(at: seq<nat>, x: nat): nat {
    if x in at then PlaceOf<nat>(x, at) else 0
  }

  lemma NumberInAt(at: seq<nat>, m: nat)
    requires Distinct(at) && m < |at|
    ensures NumberIn(at, at[m]) == m
  {
    assert at[m] in at;
    var k := PlaceOf<nat>(at[m], at);
    assert at[k] == at[m];
  }

  ghost function Positions(c: Cover, count: nat): (r: seq<nat>)
    requires c.residues != []
    ensures |r| == count
  {
    seq<nat>(count, m requires 0 <= m < count => SamplePosition(c, m))
  }

  ghost function Places(c: Cover, n: nat): (r: seq<nat>)
    requires c.period > 0 && c.residues != []
    ensures |r| == |Samples(c, n)|
  {
    seq<nat>(|Samples(c, n)|, m requires 0 <= m < |Samples(c, n)| => SamplePlace(c, n, m))
  }

  lemma PositionsDistinct(c: Cover, count: nat)
    requires ValidResidues(c)
    ensures Distinct(Positions(c, count))
  {
    forall i, j | 0 <= i < j < count
      ensures Positions(c, count)[i] != Positions(c, count)[j] {
      SamplesAscend(c, i, j);
    }
  }

  lemma PlacesArePerm(c: Cover, n: nat)
    requires ValidResidues(c)
    ensures IsPerm(Places(c, n), |Samples(c, n)|)
  {
    var p := Places(c, n);
    forall m | 0 <= m < |p| ensures p[m] < |p| { PlaceBound(c, n, m); }
    forall i, j | 0 <= i < j < |p| ensures p[i] != p[j] {
      SampleInPart(c, n, i);
      SampleInPart(c, n, j);
      PlaceOrder(c, n, i, BlockOf(c, i), PartOf(c, i), j, BlockOf(c, j), PartOf(c, j));
    }
  }

  lemma ComposedPerm(p: seq<nat>, g: seq<nat>, n: nat, f: seq<nat>)
    requires IsPerm(p, n) && IsPerm(g, n) && |f| == n && forall i | 0 <= i < n :: f[i] == p[g[i]]
    ensures IsPerm(f, n)
  {
  }

  /** `less` compares items by the places of their labels. */
  ghost predicate ComparesPlaces(at: seq<nat>, place: seq<nat>, less: (IndexRank, IndexRank) -> bool) {
    |place| == |at| && forall x: IndexRank, y: IndexRank :: ComparesAt(at, place, less, x, y)
  }

  ghost predicate ComparesAt(at: seq<nat>, place: seq<nat>, less: (IndexRank, IndexRank) -> bool, x: IndexRank,
                             y: IndexRank)
    requires |place| == |at|
  {
    forall m: nat, m': nat | m < |at| && m' < |at| && x.index == at[m] && y.index == at[m'] ::
      less(x, y) <==> place[m] < place[m']
  }

  /** Sorting items with distinct labels by the place of their label. */
  lemma SortLabelled(z: seq<IndexRank>, at: seq<nat>, place: seq<nat>, g: seq<nat>,
                     less: (IndexRank, IndexRank) -> bool, i: nat)
    requires Distinct(at) && IsPerm(place, |at|) && IsPerm(g, |at|) && |z| == |at| && i < |z|
    requires forall i | 0 <= i < |z| :: z[i].index == at[g[i]]
    requires ComparesPlaces(at, place, less)
    ensures Map(RankOf, Sort(z, less))[place[g[i]]] == z[i].rank
  {
    var f := seq<nat>(|z|, i requires 0 <= i < |z| => place[g[i]]);
    ComposedPerm(place, g, |at|, f);
    var key := (x: IndexRank) => PlaceOfLabel(at, place, x.index);
    forall i | 0 <= i < |z| ensures key(z[i]) == f[i] { NumberInAt(at, g[i]); }
    forall x, y | x in z && y in z ensures less(x, y) <==> key(x) < key(y) {
      var i := IndexIn(x, z);
      var j := IndexIn(y, z);
      ItemsCompare(at, place, g[i], g[j], x, y, less);
    }
    SortToPlaces(z, f, key, less);
    MovedAt(z, f, i);
  }

  lemma ItemsCompare(at: seq<nat>, place: seq<nat>, m: nat, m': nat, x: IndexRank, y: IndexRank,
                     less: (IndexRank, IndexRank) -> bool)
    requires Distinct(at) && ComparesPlaces(at, place, less) && m < |at| && m' < |at|
    requires x.index == at[m] && y.index == at[m']
    ensures less(x, y) <==> PlaceOfLabel(at, place, x.index) < PlaceOfLabel(at, place, y.index)
  {
    assert ComparesAt(at, place, less, x, y);
    LabelsCompare(at, place, m, m', x, y, less);
  }

  lemma LabelsCompare(at: seq<nat>, place: seq<nat>, m: nat, m': nat, x: IndexRank, y: IndexRank,
                      less: (IndexRank, IndexRank) -> bool)
    requires Distinct(at) && |place| == |at| && m < |at| && m' < |at| && x.index == at[m] && y.index == at[m']
    requires less(x, y) <==> place[m] < place[m']
    ensures less(x, y) <==> PlaceOfLabel(at, place, x.index) < PlaceOfLabel(at, place, y.index)
  {
    NumberInAt(at, m);
    NumberInAt(at, m');
  }

  ghost function PlaceOfLabel(at: seq<nat>, place: seq<nat>, x: nat): nat {
    var m := NumberIn(at, x);
    if m < |place| then place[m] else 0
  }

  lemma RecursionStringAt(c: Cover, t: Text, g: seq<nat>, i: nat)
    requires ValidResidues(c) && TupleSorted(c, t, g) && |g| >= 2 && i < |g|
    ensures SamplePlace(c, |t|, g[i]) < |g|
    ensures RecursionString(c, t)[SamplePlace(c, |t|, g[i])] == Lexnames(c, t)[i]
  {
    var n, count := |t|, |Samples(c, |t|)|;
    var at, place := Positions(c, count), Places(c, n);
    var z := ZipNames(SortedTuples(c, t), Lexnames(c, t));
    PositionsDistinct(c, count);
    PlacesArePerm(c, n);
    PlaceBound(c, n, g[i]);
    forall x: IndexRank, y: IndexRank ensures ComparesAt(at, place, ResidueLess(c), x, y) {
      forall m: nat, m': nat | m < count && m' < count && x.index == at[m] && y.index == at[m']
        ensures ResidueLess(c)(x, y) <==> place[m] < place[m'] { ByResidueIsPlaceOrder(c, n, m, m'); }
    }
    SortLabelled(z, at, place, g, ResidueLess(c), i);
  }

  lemma RanksFromNamesAt(c: Cover, t: Text, g: seq<nat>, i: nat)
    requires ValidResidues(c) && TupleSorted(c, t, g) && i < |g|
    ensures RanksFromNames(c, t)[g[i]] == i + 1
  {
    var count := |g|;
    var at, place := Positions(c, count), seq<nat>(count, m requires 0 <= m < count => m);
    var z := NumberFromOne(Map(TupleIndex, SortedTuples(c, t)));
    PositionsDistinct(c, count);
    forall x: IndexRank, y: IndexRank ensures ComparesAt(at, place, BlockLess(c), x, y) {
      forall m: nat, m': nat | m < count && m' < count && x.index == at[m] && y.index == at[m']
        ensures BlockLess(c)(x, y) <==> place[m] < place[m'] {
        SamplesAscend(c, m, m');
        ByBlockIsTextOrder(c, x.index, y.index);
      }
    }
    SortLabelled(z, at, place, g, BlockLess(c), i);
  }

  lemma RanksFromRecursionAt(c: Cover, n: nat, sa: seq<nat>, g: seq<nat>, i: nat)
    requires ValidResidues(c) && IsPerm(g, |Samples(c, n)|) && |sa| == |g| && i < |g|
    requires forall j: nat | j < |sa| :: sa[j] == SamplePlace(c, n, g[j])
    ensures RanksFromRecursion(c, n, sa)[g[i]] == i + 1
  {
    var count := |g|;
    var at, place := Places(c, n), seq<nat>(count, m requires 0 <= m < count => m);
    PlacesArePerm(c, n);
    forall x: IndexRank, y: IndexRank ensures ComparesAt(at, place, PlaceInPartLess(c, n), x, y) {
      forall m: nat, m': nat | m < count && m' < count && x.index == at[m] && y.index == at[m']
        ensures PlaceInPartLess(c, n)(x, y) <==> place[m] < place[m'] { InterleavesInTextOrder(c, n, m, m'); }
    }
    SortLabelled(NumberFromOne(sa), at, place, g, PlaceInPartLess(c, n), i);
  }

  lemma LexnamesOrder(c: Cover, t: Text, g: seq<nat>, i: nat, j: nat)
    requires ValidResidues(c) && TupleSorted(c, t, g) && |g| >= 2 && i < |g| && j < |g|
    ensures Lexnames(c, t)[i] < Lexnames(c, t)[j]
       <==> CharsLess(Window(t, SamplePosition(c, g[i]), c.period), Window(t, SamplePosition(c, g[j]), c.period))
  {
    SortedTuplesAscend(c, t, g);
    NamesOrder(Map(TupleChars, SortedTuples(c, t)), c.period, i, j);
  }

  lemma SampleName(c: Cover, t: Text, g: seq<nat>, m: nat) returns (i: nat)
    requires ValidResidues(c) && TupleSorted(c, t, g) && |g| >= 2 && m < |g|
    ensures i < |g| && g[i] == m && SamplePlace(c, |t|, m) < |g|
    ensures RecursionString(c, t)[SamplePlace(c, |t|, m)] == Lexnames(c, t)[i]
  {
    PermHits(g, |g|, m);
    i := IndexIn(m, g);
    RecursionStringAt(c, t, g, i);
  }

  /** Characters of the recursion string order like the tuples they name. */
  lemma RecursionStringOrder(c: Cover, t: Text, m: nat, m': nat)
    requires ValidResidues(c) && |Samples(c, |t|)| >= 2 && m < |Samples(c, |t|)| && m' < |Samples(c, |t|)|
    requires SamplePlace(c, |t|, m) < |Samples(c, |t|)| && SamplePlace(c, |t|, m') < |Samples(c, |t|)|
    ensures RecursionString(c, t)[SamplePlace(c, |t|, m)] < RecursionString(c, t)[SamplePlace(c, |t|, m')]
       <==> CharsLess(Window(t, SamplePosition(c, m), c.period), Window(t, SamplePosition(c, m'), c.period))
  {
    var g := SortTuples(c, t);
    var i := SampleName(c, t, g, m);
    var i' := SampleName(c, t, g, m');
    LexnamesOrder(c, t, g, i, i');
  }

  /** The recursion string names the samples in the order of their tuples. */
  lemma RecursionStringNames(c: Cover, t: Text)
    requires ValidResidues(c) && |Samples(c, |t|)| >= 2
    ensures NamesTuples(c, t, RecursionString(c, t))
  {
    var s := RecursionString(c, t);
    forall m: nat, m': nat | m < |s| && m' < |s| ensures NamesInOrder(c, t, s, m, m') {
      PlaceBound(c, |t|, m);
      PlaceBound(c, |t|, m');
      RecursionStringOrder(c, t, m, m');
      TupleOrder(t, SamplePosition(c, m), SamplePosition(c, m'), c.period);
    }
  }

  /** The names of the recursion string leave no gaps. */
  lemma NamesHaveNoGaps(c: Cover, t: Text, m: nat, v: nat)
    requires ValidResidues(c) && |Samples(c, |t|)| >= 2 && m < |Samples(c, |t|)|
    requires SamplePlace(c, |t|, m) < |Samples(c, |t|)| && v <= RecursionString(c, t)[SamplePlace(c, |t|, m)]
    ensures v in RecursionString(c, t)
  {
    var g := SortTuples(c, t);
    var i := SampleName(c, t, g, m);
    var j := EveryIntervalOccurs(Map(TupleChars, SortedTuples(c, t)), v, i);
    RecursionStringAt(c, t, g, j);
  }

  /** Every value up to the first character occurs. */
  ghost predicate NoGaps(s: Text) { s != [] && forall v: nat | v <= s[0] :: v in s }

  lemma FirstNameNoGaps(c: Cover, t: Text, s: Text)
    requires ValidResidues(c) && |Samples(c, |t|)| >= 2 && s == RecursionString(c, t) && PartSize(c, |t|, 0) > 0
    ensures NoGaps(s)
  {
    var m := SampleOf(c, |t|, 0, 0);
    forall v: nat | v <= s[0] ensures v in s { NamesHaveNoGaps(c, t, m, v); }
  }

  // ---------------------------------------------------------------- sample ranks

  /** `r` holds a positive rank for every sample; ranks order like the sample suffixes. */
  ghost predicate RanksSamples(c: Cover, t: Text, r: seq<nat>)
    requires ValidResidues(c)
  {
    && |r| == |Samples(c, |t|)|
    && (forall m: nat | m < |r| :: r[m] > 0)
    && forall m: nat, m': nat | m < |r| && m' < |r| :: RankInOrder(c, t, r, m, m')
  }

  ghost predicate RankInOrder(c: Cover, t: Text, r: seq<nat>, m: nat, m': nat)
    requires c.residues != [] && m < |r| && m' < |r|
  {
    r[m] < r[m'] <==> SufLess(t, SamplePosition(c, m), SamplePosition(c, m'))
  }

  /** `g` lists the samples in suffix order. */
  ghost predicate SuffixSorted(c: Cover, t: Text, g: seq<nat>)
    requires ValidResidues(c)
  {
    && IsPerm(g, |Samples(c, |t|)|)
    && forall i: nat, j: nat | i < j < |g| :: SufLess(t, SamplePosition(c, g[i]), SamplePosition(c, g[j]))
  }

  lemma SamplesNotBoth(c: Cover, t: Text, m: nat, m': nat)
    requires ValidResidues(c) && m < |Samples(c, |t|)| && m' < |Samples(c, |t|)| && m != m'
    ensures SufLess(t, SamplePosition(c, m), SamplePosition(c, m'))
         <==> !SufLess(t, SamplePosition(c, m'), SamplePosition(c, m))
  {
    SampleInPart(c, |t|, m);
    SampleInPart(c, |t|, m');
    SamplesComparable(c, t, BlockOf(c, m), PartOf(c, m), BlockOf(c, m'), PartOf(c, m'));
  }

  lemma CountedInOrder(c: Cover, t: Text, r: seq<nat>, g: seq<nat>, i: nat, j: nat)
    requires ValidResidues(c) && SuffixSorted(c, t, g) && |r| == |g| && i < |g| && j < |g|
    requires r[g[i]] == i + 1 && r[g[j]] == j + 1
    ensures RankInOrder(c, t, r, g[i], g[j])
  {
    if i == j {
      SufIrreflexive(t, SamplePosition(c, g[i]));
    } else {
      SamplesNotBoth(c, t, g[i], g[j]);
    }
  }

  lemma CountingRanks(c: Cover, t: Text, r: seq<nat>, g: seq<nat>)
    requires ValidResidues(c) && SuffixSorted(c, t, g) && |r| == |g|
    requires forall i: nat | i < |g| :: r[g[i]] == i + 1
    ensures RanksSamples(c, t, r)
  {
    forall m: nat | m < |r| ensures r[m] > 0 {
      PermHits(g, |g|, m);
      var i := IndexIn(m, g);
    }
    forall m: nat, m': nat | m < |r| && m' < |r| ensures RankInOrder(c, t, r, m, m') {
      PermHits(g, |g|, m);
      PermHits(g, |g|, m');
      var i := IndexIn(m, g);
      var j := IndexIn(m', g);
      CountedInOrder(c, t, r, g, i, j);
    }
  }

  lemma AllDifferent<T>(s: seq<T>, i: nat, j: nat)
    requires |s| >= 2 && Max(Intervals(s)) + 1 == |s| && i < j < |s|
    ensures Intervals(s)[i] < Intervals(s)[j]
  {
    MaxOfIntervals(s);
    IntervalZero(s);
    IntervalsAscend(s, 0, i);
    IntervalsAscend(s, j, |s| - 1);
  }

  lemma {:induction false} NumberedByPlace<T>(s: seq<T>, k: nat)
    requires |s| >= 2 && k < |s| && forall i, j | 0 <= i < j < |s| :: s[i] != s[j]
    ensures Intervals(s)[k] == k
    decreases k
  {
    if k == 0 {
      IntervalZero(s);
    } else {
      NumberedByPlace(s, k - 1);
      IntervalStep(s, k);
    }
  }

  lemma UniqueNamesDiffer(c: Cover, t: Text, g: seq<nat>, i: nat, j: nat)
    requires ValidResidues(c) && TupleSorted(c, t, g) && NamesUnique(c, t) && |g| >= 2 && i < j < |g|
    ensures !SameTuple(c, t, g[i], g[j]) && SufLess(t, SamplePosition(c, g[i]), SamplePosition(c, g[j]))
  {
    SubproblemHoldsSamples(c, |t|);
    AllDifferent(Map(TupleChars, SortedTuples(c, t)), i, j);
    LexnamesOrder(c, t, g, i, j);
    TupleOrder(t, SamplePosition(c, g[i]), SamplePosition(c, g[j]), c.period);
  }

  lemma SameTupleSymmetric(c: Cover, t: Text, m: nat, m': nat)
    requires c.residues != [] && SameTuple(c, t, m, m')
    ensures SameTuple(c, t, m', m)
  {
    AgreeSymmetric(t, SamplePosition(c, m), SamplePosition(c, m'), c.period);
  }

  /** All samples have different tuples. */
  ghost predicate TuplesDiffer(c: Cover, t: Text)
    requires ValidResidues(c)
  {
    forall m: nat, m': nat | m < |Samples(c, |t|)| && m' < |Samples(c, |t|)| && m != m' :: !SameTuple(c, t, m, m')
  }

  lemma DifferingTuplesUnique(c: Cover, t: Text)
    requires ValidResidues(c) && |Samples(c, |t|)| >= 2 && TuplesDiffer(c, t)
    ensures NamesUnique(c, t)
  {
    var g := SortTuples(c, t);
    var s := Map(TupleChars, SortedTuples(c, t));
    forall i: nat, j: nat | i < j < |s| ensures s[i] != s[j] {
      TupleOrder(t, SamplePosition(c, g[i]), SamplePosition(c, g[j]), c.period);
      assert !SameTuple(c, t, g[i], g[j]);
    }
    NumberedByPlace(s, |s| - 1);
    MaxOfIntervals(s);
    SubproblemHoldsSamples(c, |t|);
  }

  /** The recursion ends exactly when all samples have different tuples. */
  lemma RecursionEnds(c: Cover, t: Text)
    requires ValidResidues(c) && |Samples(c, |t|)| >= 2
    ensures NamesUnique(c, t) <==> TuplesDiffer(c, t)
  {
    if NamesUnique(c, t) {
      var g := SortTuples(c, t);
      forall m: nat, m': nat | m < |g| && m' < |g| && m != m' ensures !SameTuple(c, t, m, m') {
        PermHits(g, |g|, m);
        PermHits(g, |g|, m');
        var i := IndexIn(m, g);
        var j := IndexIn(m', g);
        if i < j { UniqueNamesDiffer(c, t, g, i, j); } else {
          UniqueNamesDiffer(c, t, g, j, i);
          if SameTuple(c, t, m, m') { SameTupleSymmetric(c, t, m, m'); }
        }
      }
    } else if TuplesDiffer(c, t) {
      DifferingTuplesUnique(c, t);
    }
  }

  /** When all names differ, the order of the tuples ranks the samples. */
  lemma UniqueNamesRank(c: Cover, t: Text)
    requires ValidResidues(c) && |Samples(c, |t|)| >= 2 && NamesUnique(c, t)
    ensures RanksSamples(c, t, RanksFromNames(c, t))
  {
    var g := SortTuples(c, t);
    forall i: nat, j: nat | i < j < |g| ensures SufLess(t, SamplePosition(c, g[i]), SamplePosition(c, g[j])) {
      UniqueNamesDiffer(c, t, g, i, j);
    }
    forall i: nat | i < |g| ensures RanksFromNames(c, t)[g[i]] == i + 1 { RanksFromNamesAt(c, t, g, i); }
    CountingRanks(c, t, RanksFromNames(c, t), g);
  }

  /** The sample numbers at the places a suffix array of the recursion string lists. */
  ghost function NumbersAt(c: Cover, n: nat, sa: seq<nat>): (g: seq<nat>)
    requires ValidResidues(c) && IsPerm(sa, |Samples(c, n)|)
    ensures IsPerm(g, |Samples(c, n)|)
    ensures forall i: nat | i < |sa| :: SamplePlace(c, n, g[i]) == sa[i]
  {
    PlacesArePerm(c, n);
    var back := Inverse(Places(c, n), |sa|);
    seq<nat>(|sa|, i requires 0 <= i < |sa| => back[sa[i]])
  }

  /** A suffix array of a string that orders the samples like their suffixes ranks them. */
  lemma OrderedRanks(c: Cover, t: Text, s: Text, sa: seq<nat>)
    requires ValidResidues(c) && |s| == |Samples(c, |t|)| && IsSuffixArray(s, sa) && OrdersSamples(c, t, s)
    ensures RanksSamples(c, t, RanksFromRecursion(c, |t|, sa))
  {
    var g, r := NumbersAt(c, |t|, sa), RanksFromRecursion(c, |t|, sa);
    forall i: nat, j: nat | i < j < |g| ensures SufLess(t, SamplePosition(c, g[i]), SamplePosition(c, g[j])) {
      assert SufLess(s, sa[i], sa[j]);
      assert Ordered(c, t, s, g[i], g[j]);
      OrderedByPart(c, t, s, g[i], g[j]);
    }
    forall i: nat | i < |g| ensures r[g[i]] == i + 1 { RanksFromRecursionAt(c, |t|, sa, g, i); }
    CountingRanks(c, t, r, g);
  }

  /** Samples that are ranked by a suffix array of `s` are ordered by `s`. */
  lemma RankedInOrder(c: Cover, t: Text, s: Text, sa: seq<nat>, m: nat, m': nat)
    requires ValidResidues(c) && |s| == |Samples(c, |t|)| && IsSuffixArray(s, sa)
    requires RanksSamples(c, t, RanksFromRecursion(c, |t|, sa)) && m < |s| && m' < |s| && m != m'
    ensures Ordered(c, t, s, m, m')
  {
    var i := RankedAt(c, |t|, sa, m);
    var j := RankedAt(c, |t|, sa, m');
    RankOrder(s, sa, i, j);
    assert RankInOrder(c, t, RanksFromRecursion(c, |t|, sa), m, m');
    OrderedByPart(c, t, s, m, m');
  }

  /** A suffix array of the recursion string ranks the samples exactly when the ends of its parts are in order. */
  lemma RecursionRanks(c: Cover, t: Text, sa: seq<nat>)
    requires ValidResidues(c) && |Samples(c, |t|)| >= 2 && IsSuffixArray(RecursionString(c, t), sa)
    ensures RanksSamples(c, t, RanksFromRecursion(c, |t|, sa)) <==> EndsInOrder(c, t, RecursionString(c, t))
  {
    var s := RecursionString(c, t);
    RecursionStringNames(c, t);
    RecursionOrderIsExact(c, t, s);
    if OrdersSamples(c, t, s) { OrderedRanks(c, t, s, sa); }
    if RanksSamples(c, t, RanksFromRecursion(c, |t|, sa)) {
      forall m: nat, m': nat | m < |s| && m' < |s| && m != m' ensures Ordered(c, t, s, m, m') {
        RankedInOrder(c, t, s, sa, m, m');
      }
    }
  }

  lemma RankedAt(c: Cover, n: nat, sa: seq<nat>, m: nat) returns (i: nat)
    requires ValidResidues(c) && IsPerm(sa, |Samples(c, n)|) && m < |sa|
    ensures i < |sa| && sa[i] == SamplePlace(c, n, m) && RanksFromRecursion(c, n, sa)[m] == i + 1
  {
    var g := NumbersAt(c, n, sa);
    PermHits(g, |g|, m);
    i := IndexIn(m, g);
    RanksFromRecursionAt(c, n, sa, g, i);
  }

  // ---------------------------------------------------------------- texts without the padding value

  /** When every character is above the padding value, the last tuples of the parts separate them. */
  lemma NoPaddingSeparates(c: Cover, t: Text)
    requires ValidResidues(c) && forall i | 0 <= i < |t| :: t[i] > 0
    ensures Separated(c, t)
  {
    forall m: nat, m': nat | m < |Samples(c, |t|)| && m' < |Samples(c, |t|)| && m != m' && EndsPart(c, |t|, m)
      ensures !SameTuple(c, t, m, m') {
      EndTupleDiffers(c, t, m, m');
    }
  }

  lemma EndTupleDiffers(c: Cover, t: Text, m: nat, m': nat)
    requires ValidResidues(c) && forall i | 0 <= i < |t| :: t[i] > 0
    requires m < |Samples(c, |t|)| && m' < |Samples(c, |t|)| && m != m' && EndsPart(c, |t|, m)
    ensures !SameTuple(c, t, m, m')
  {
    var b, k, i, j := BlockOf(c, m), PartOf(c, m), SamplePosition(c, m), SamplePosition(c, m');
    SampleInPart(c, |t|, m);
    SampleInPart(c, |t|, m');
    SampleBound(c, |t|, b, k);
    SampleBound(c, |t|, b + 1, k);
    SampleBound(c, |t|, BlockOf(c, m'), PartOf(c, m'));
    NextBlock(c, b, b + 1, k);
    SamplesNotBoth(c, t, m, m');
    SamplesAscend(c, m, m');
    SamplesAscend(c, m', m);
    if Agree(t, i, j, c.period) {
      if j < i { AgreeAt(t, i, j, c.period, |t| - i); } else { AgreeAt(t, i, j, c.period, |t| - j); }
    }
  }
}
