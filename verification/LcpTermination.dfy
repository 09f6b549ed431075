/**
 When the refinement loop of ConstructLCP stops (examples/suffix_sorting/construct_lcp.hpp:142).

 The number of intervals never decreases.  The loop runs forever exactly when the text is `Stuck`: its
 length has a proper divisor such that the positions of every residue are neighbours in the suffix
 array, and the characters at the positions of one residue are all the same.
 */
module LcpTermination {
  import opened Arithmetic
  import opened IntervalNumbers
  import opened Lists
  import opened Suffixes
  import opened BurrowsWheeler
  import opened CyclicShifts
  import opened LongestCommonPrefix
  import opened StandingIntervals

  /** The suffixes at `x` and `y` are in one interval in round `k`. */
  ghost predicate Together(t: Text, sa: seq<nat>, k: nat, x: nat, y: nat)
    requires |t| >= 2 && IsPerm(sa, |t|) && x < |t| && y < |t|
  {
    Round(t, sa, k)[Inverse(sa, |t|)[x]] == Round(t, sa, k)[Inverse(sa, |t|)[y]]
  }

  /** Positions of one residue modulo `d` are neighbours in the suffix array. */
  ghost predicate ResiduesTogether(sa: seq<nat>, d: nat) {
    d > 0 && forall a, m, b | 0 <= a <= m <= b < |sa| && sa[a] % d == sa[b] % d :: sa[m] % d == sa[a] % d
  }

  ghost predicate SameCharAt(t: Text, d: nat, p: nat) {
    d > 0 && forall x, y | 0 <= x < |t| && 0 <= y < |t| && x % d == p && y % d == p :: t[x] == t[y]
  }

  ghost predicate StuckBy(t: Text, sa: seq<nat>, d: nat, p: nat) {
    && 0 < d < |t| && |t| % d == 0 && p < d
    && ResiduesTogether(sa, d) && SameCharAt(t, d, p)
  }

  ghost predicate Stuck(t: Text, sa: seq<nat>) {
    exists d: nat, p: nat :: StuckBy(t, sa, d, p)
  }

  // ---------------------------------------------------------------- intervals and their items

  /** The item of interval `c`. */
  ghost function ItemOf(w: seq<nat>, c: nat): nat
    requires |w| >= 2
  {
    if c in Intervals(w) then w[PlaceOf<nat>(c, Intervals(w))] else 0
  }

  lemma ItemOfInterval(w: seq<nat>, a: nat)
    requires |w| >= 2 && a < |w|
    ensures ItemOf(w, Intervals(w)[a]) == w[a]
  {
    var c := Intervals(w)[a];
    assert c in Intervals(w);
    var p := PlaceOf<nat>(c, Intervals(w));
    if p <= a { SameIntervalSameItem(w, p, a); } else { SameIntervalSameItem(w, a, p); }
  }

  /** `w` holds exactly the items 0..top. */
  ghost predicate ItemsUpTo(w: seq<nat>, top: nat) {
    (forall c: nat | c <= top :: c in w) && forall m | 0 <= m < |w| :: w[m] <= top
  }

  /** An interval of every item 0..top. */
  ghost function AnInterval(w: seq<nat>, top: nat): (g: seq<nat>)
    requires |w| >= 2 && ItemsUpTo(w, top)
    ensures |g| == top + 1
  {
    seq(top + 1, c requires 0 <= c <= top => Intervals(w)[PlaceOf<nat>(c, w)])
  }

  lemma AnIntervalAt(w: seq<nat>, top: nat, c: nat)
    requires |w| >= 2 && ItemsUpTo(w, top) && c <= top
    ensures AnInterval(w, top)[c] <= Intervals(w)[|w| - 1] && ItemOf(w, AnInterval(w, top)[c]) == c
  {
    assert c in w;
    var p := PlaceOf<nat>(c, w);
    IntervalsAscend(w, p, |w| - 1);
    ItemOfInterval(w, p);
    assert AnInterval(w, top)[c] == Intervals(w)[p];
  }

  /** A list of the items 0..top has more than `top` intervals. */
  lemma IntervalsCountItems(w: seq<nat>, top: nat)
    requires |w| >= 2 && ItemsUpTo(w, top)
    ensures top <= Intervals(w)[|w| - 1]
    ensures top == Intervals(w)[|w| - 1] ==> IsPerm(AnInterval(w, top), top + 1)
  {
    var g := AnInterval(w, top);
    forall i, j | 0 <= i < j <= top ensures g[i] != g[j] {
      AnIntervalAt(w, top, i);
      AnIntervalAt(w, top, j);
    }
    forall i | 0 <= i <= top ensures g[i] <= Intervals(w)[|w| - 1] { AnIntervalAt(w, top, i); }
    DistinctItems(g);
    SubsetCard(Items(g), Below(Intervals(w)[|w| - 1] + 1));
  }

  lemma IntervalOfItem(w: seq<nat>, top: nat, a: nat)
    requires |w| >= 2 && ItemsUpTo(w, top) && top == Intervals(w)[|w| - 1] && a < |w|
    ensures w[a] <= top && Intervals(w)[a] == AnInterval(w, top)[w[a]]
  {
    IntervalsCountItems(w, top);
    IntervalsAscend(w, a, |w| - 1);
    PermHits(AnInterval(w, top), top + 1, Intervals(w)[a]);
    var c := IndexIn(Intervals(w)[a], AnInterval(w, top));
    AnIntervalAt(w, top, c);
    ItemOfInterval(w, a);
  }

  /** If it has no more than one interval per item, every item fills a single interval. */
  lemma ItemsFillIntervals(w: seq<nat>, top: nat, a: nat, b: nat)
    requires |w| >= 2 && ItemsUpTo(w, top) && top == Intervals(w)[|w| - 1]
    requires a < |w| && b < |w| && w[a] == w[b]
    ensures Intervals(w)[a] == Intervals(w)[b]
  {
    IntervalOfItem(w, top, a);
    IntervalOfItem(w, top, b);
  }

  // ---------------------------------------------------------------- from one round to the next

  lemma InverseOfPsi(t: Text, sa: seq<nat>, x: nat)
    requires |t| > 0 && IsPerm(sa, |t|) && x < |t|
    ensures Inverse(sa, |t|)[x] < |t|
    ensures Psi(t, sa)[Inverse(sa, |t|)[x]] == Inverse(sa, |t|)[Step(|t|, x)]
  {
    PsiAt(t, sa, Inverse(sa, |t|)[x]);
  }

  /** The list the next round numbers, at the rank of `x`: the interval of the position after `x`. */
  lemma CarriedAtRank(t: Text, sa: seq<nat>, k: nat, x: nat)
    requires |t| >= 2 && IsPerm(sa, |t|) && x < |t|
    ensures Carried(Psi(t, sa), Round(t, sa, k))[Inverse(sa, |t|)[x]]
         == Round(t, sa, k)[Inverse(sa, |t|)[Step(|t|, x)]]
  {
    InverseOfPsi(t, sa, x);
    CarriedAt(Psi(t, sa), Round(t, sa, k), Inverse(sa, |t|)[x]);
  }

  /** Suffixes together in a round have successors together in the round before. */
  lemma TogetherBefore(t: Text, sa: seq<nat>, k: nat, k': nat, x: nat, y: nat)
    requires |t| >= 2 && IsPerm(sa, |t|) && x < |t| && y < |t| && k' == k + 1 && Together(t, sa, k', x, y)
    ensures Together(t, sa, k, Step(|t|, x), Step(|t|, y))
  {
    RoundUnfolds(t, sa, k, k');
    var w := Carried(Psi(t, sa), Round(t, sa, k));
    var a, b := Inverse(sa, |t|)[x], Inverse(sa, |t|)[y];
    if a <= b { SameIntervalSameItem(w, a, b); } else { SameIntervalSameItem(w, b, a); }
    CarriedAtRank(t, sa, k, x);
    CarriedAtRank(t, sa, k, y);
  }

  /** The highest interval number of a round. */
  ghost function Top(t: Text, sa: seq<nat>, k: nat): nat
    requires |t| >= 2 && IsPerm(sa, |t|)
  {
    Round(t, sa, k)[|t| - 1]
  }

  lemma CarriedItems(t: Text, sa: seq<nat>, k: nat)
    requires |t| >= 2 && IsPerm(sa, |t|)
    ensures ItemsUpTo(Carried(Psi(t, sa), Round(t, sa, k)), Top(t, sa, k))
  {
    var r, p := Round(t, sa, k), Psi(t, sa);
    var w, s := Carried(p, r), Source(t, sa, k);
    forall c: nat | c <= Top(t, sa, k) ensures c in w {
      var a := EveryIntervalOccurs(s, c, |t| - 1);
      var j := Inverse(p, |t|)[a];
      CarriedAt(p, r, j);
      assert w[j] == c;
    }
    forall m | 0 <= m < |w| ensures w[m] <= Top(t, sa, k) {
      CarriedAt(p, r, m);
      IntervalsAscend(s, p[m], |t| - 1);
    }
  }

  /** The number of intervals never decreases. */
  lemma IntervalsNeverDecrease(t: Text, sa: seq<nat>, k: nat, k': nat)
    requires |t| >= 2 && IsPerm(sa, |t|) && k' == k + 1
    ensures Top(t, sa, k) <= Top(t, sa, k')
  {
    RoundUnfolds(t, sa, k, k');
    CarriedItems(t, sa, k);
    IntervalsCountItems(Carried(Psi(t, sa), Round(t, sa, k)), Top(t, sa, k));
  }

  /** While the number of intervals stands still, the intervals only move. */
  lemma TogetherNext(t: Text, sa: seq<nat>, k: nat, k': nat, x: nat, y: nat)
    requires |t| >= 2 && IsPerm(sa, |t|) && k' == k + 1 && Top(t, sa, k) == Top(t, sa, k') && x < |t| && y < |t|
    requires Together(t, sa, k, Step(|t|, x), Step(|t|, y))
    ensures Together(t, sa, k', x, y)
  {
    RoundUnfolds(t, sa, k, k');
    CarriedItems(t, sa, k);
    CarriedAtRank(t, sa, k, x);
    CarriedAtRank(t, sa, k, y);
    ItemsFillIntervals(Carried(Psi(t, sa), Round(t, sa, k)), Top(t, sa, k),
                       Inverse(sa, |t|)[x], Inverse(sa, |t|)[y]);
  }

  // ---------------------------------------------------------------- a stuck text never finishes

  /** The residue `k` places before `p`. */
  ghost function ResidueBack(d: nat, p: nat, k: nat): (r: nat)
    requires p < d
    ensures r < d
  {
    if k == 0 then p else
      var r := ResidueBack(d, p, k - 1);
      if r == 0 then d - 1 else r - 1
  }

  lemma PreviousResidue(n: nat, d: nat, x: nat, r: nat)
    requires 0 < d && n % d == 0 && x < n && r < d && x % d == (if r == 0 then d - 1 else r - 1)
    ensures Step(n, x) % d == r
  {
    AddRemainder(x, 1, d);
    if r == 0 { DivisionUnique(d, 1, 0, d); } else { DivisionUnique(r, 0, r, d); }
  }

  /** Equal items over a range of ranks put its ends into one interval. */
  lemma EqualItemsTogether(t: Text, sa: seq<nat>, k: nat, w: seq<nat>, x: nat, y: nat)
    requires |t| >= 2 && IsPerm(sa, |t|) && x < |t| && y < |t| && |w| == |t| && Round(t, sa, k) == Intervals(w)
    requires Inverse(sa, |t|)[x] <= Inverse(sa, |t|)[y]
    requires forall m: nat | Inverse(sa, |t|)[x] <= m <= Inverse(sa, |t|)[y] :: w[m] == w[Inverse(sa, |t|)[x]]
    ensures Together(t, sa, k, x, y)
  {
    EqualRunSameInterval(w, Inverse(sa, |t|)[x], Inverse(sa, |t|)[y]);
  }

  /** In a stuck text, the positions of one residue stay together; the residue moves back every round. */
  lemma {:induction false} StaysTogether(t: Text, sa: seq<nat>, d: nat, p: nat, k: nat, x: nat, y: nat)
    requires |t| >= 2 && IsPerm(sa, |t|) && StuckBy(t, sa, d, p) && x < |t| && y < |t|
    requires x % d == y % d == ResidueBack(d, p, k)
    ensures Together(t, sa, k, x, y)
    decreases k, if Inverse(sa, |t|)[x] <= Inverse(sa, |t|)[y] then 1 else 2
  {
    var a, b := Inverse(sa, |t|)[x], Inverse(sa, |t|)[y];
    if b < a {
      StaysTogether(t, sa, d, p, k, y, x);
    } else {
      var w := Source(t, sa, k);
      forall m: nat | a <= m <= b ensures w[m] == w[a] { SameItemBetween(t, sa, d, p, k, x, y, m); }
      EqualItemsTogether(t, sa, k, w, x, y);
    }
  }

  lemma {:induction false} SameItemBetween(t: Text, sa: seq<nat>, d: nat, p: nat, k: nat, x: nat, y: nat, m: nat)
    requires |t| >= 2 && IsPerm(sa, |t|) && StuckBy(t, sa, d, p) && x < |t| && y < |t|
    requires x % d == y % d == ResidueBack(d, p, k)
    requires Inverse(sa, |t|)[x] <= m <= Inverse(sa, |t|)[y]
    ensures Source(t, sa, k)[m] == Source(t, sa, k)[Inverse(sa, |t|)[x]]
    decreases k, 0
  {
    var a := Inverse(sa, |t|)[x];
    assert sa[a] == x && sa[Inverse(sa, |t|)[y]] == y;
    var z := sa[m];
    assert z % d == x % d;
    if k > 0 {
      var k' := k - 1;
      PreviousResidue(|t|, d, z, ResidueBack(d, p, k'));
      PreviousResidue(|t|, d, x, ResidueBack(d, p, k'));
      StaysTogether(t, sa, d, p, k', Step(|t|, z), Step(|t|, x));
      SameItemNext(t, sa, k, m, a);
    }
  }

  /** The list round `k` numbers, by rank: the interval of the next position in the round before. */
  lemma SourceAtRank(t: Text, sa: seq<nat>, k: nat, m: nat)
    requires |t| >= 2 && IsPerm(sa, |t|) && k > 0 && m < |t|
    ensures Source(t, sa, k)[m] == Round(t, sa, k - 1)[Inverse(sa, |t|)[Step(|t|, sa[m])]]
  {
    PsiAt(t, sa, m);
    CarriedAt(Psi(t, sa), Round(t, sa, k - 1), m);
  }

  lemma SameItemNext(t: Text, sa: seq<nat>, k: nat, m: nat, a: nat)
    requires |t| >= 2 && IsPerm(sa, |t|) && k > 0 && m < |t| && a < |t|
    requires Together(t, sa, k - 1, Step(|t|, sa[m]), Step(|t|, sa[a]))
    ensures Source(t, sa, k)[m] == Source(t, sa, k)[a]
  {
    SourceAtRank(t, sa, k, m);
    SourceAtRank(t, sa, k, a);
  }

  lemma SharedIntervalNoBoundary(w: seq<nat>, a: nat, b: nat)
    requires |w| >= 2 && a < b < |w| && Intervals(w)[a] == Intervals(w)[b]
    ensures !BoundaryAt(Intervals(w), b)
  {
    assert |Intervals(w)| == |w|;
    IntervalsAscend(w, a, b - 1);
    IntervalStep(w, b);
  }

  lemma TogetherIsNotDone(t: Text, sa: seq<nat>, k: nat, x: nat, y: nat)
    requires |t| >= 2 && IsPerm(sa, |t|) && x < |t| && y < |t| && x != y && Together(t, sa, k, x, y)
    ensures !Done(t, sa, k)
  {
    var a, b := Inverse(sa, |t|)[x], Inverse(sa, |t|)[y];
    assert sa[a] == x && sa[b] == y;
    var last := if a < b then b else a;
    SharedIntervalNoBoundary(Source(t, sa, k), if a < b then a else b, last);
    if Done(t, sa, k) { DoneIsAllBoundaries(t, sa, k, last); }
  }

  lemma StuckNeverDone(t: Text, sa: seq<nat>, d: nat, p: nat, k: nat)
    requires |t| >= 2 && IsPerm(sa, |t|) && StuckBy(t, sa, d, p)
    ensures !Done(t, sa, k)
  {
    var r := ResidueBack(d, p, k);
    assert |t| == (|t| / d) * d;
    if |t| / d <= 1 { ProductMonotone(|t| / d, 1, d); }
    ProductMonotone(2, |t| / d, d);
    DivisionUnique(r, 0, r, d);
    AddDivisor(r, d);
    StaysTogether(t, sa, d, p, k, r, r + d);
    TogetherIsNotDone(t, sa, k, r, r + d);
  }

  // ---------------------------------------------------------------- a standstill

  ghost predicate StepUp(f: nat -> nat, i: nat) { f(i) <= f(i + 1) }

  lemma {:induction false} Rises(f: nat -> nat, i: nat, j: nat)
    requires i <= j && forall x: nat :: StepUp(f, x)
    ensures f(i) <= f(j)
    decreases j - i
  {
    if i < j {
      Rises(f, i, j - 1);
      assert StepUp(f, j - 1);
    }
  }

  /** A bounded function that never decreases stands still for any length of time. */
  lemma {:induction false} StandsStill(f: nat -> nat, length: nat, bound: nat, k: nat) returns (s: nat)
    requires (forall x: nat :: StepUp(f, x)) && forall x: nat :: f(x) <= bound
    ensures f(s) == f(s + length)
    decreases bound - f(k)
  {
    Rises(f, k, k + length);
    if f(k) == f(k + length) { s := k; } else { s := StandsStill(f, length, bound, k + length); }
  }

  ghost function TopFn(t: Text, sa: seq<nat>): nat -> nat
    requires |t| >= 2 && IsPerm(sa, |t|)
  {
    (m: nat) => Top(t, sa, m)
  }

  lemma TopStepsUp(t: Text, sa: seq<nat>, k: nat)
    requires |t| >= 2 && IsPerm(sa, |t|)
    ensures StepUp(TopFn(t, sa), k)
  {
    IntervalsNeverDecrease(t, sa, k, k + 1);
  }

  lemma TopBounded(t: Text, sa: seq<nat>, k: nat)
    requires |t| >= 2 && IsPerm(sa, |t|)
    ensures TopFn(t, sa)(k) <= |t|
  {
    var w := Source(t, sa, k);
    IntervalZero(w);
    IntervalsAscend(w, 0, |t| - 1);
  }

  /** A round and the next `length` rounds all have the same number of intervals. */
  ghost predicate FlatFor(f: nat -> nat, k: nat, length: nat) {
    forall m: nat | k <= m <= k + length :: f(m) == f(k)
  }

  lemma FlatBetween(f: nat -> nat, k: nat, length: nat)
    requires (forall x: nat :: StepUp(f, x)) && f(k) == f(k + length)
    ensures FlatFor(f, k, length)
  {
    forall m: nat | k <= m <= k + length ensures f(m) == f(k) {
      Rises(f, k, m);
      Rises(f, m, k + length);
    }
  }

  ghost predicate RisesBounded(f: nat -> nat, bound: nat) {
    (forall x: nat :: StepUp(f, x)) && forall x: nat :: f(x) <= bound
  }

  lemma TopRisesBounded(t: Text, sa: seq<nat>)
    requires |t| >= 2 && IsPerm(sa, |t|)
    ensures RisesBounded(TopFn(t, sa), |t|)
  {
    forall x: nat ensures StepUp(TopFn(t, sa), x) { TopStepsUp(t, sa, x); }
    forall x: nat ensures TopFn(t, sa)(x) <= |t| { TopBounded(t, sa, x); }
  }

  lemma FlatSomewhere(f: nat -> nat, length: nat, bound: nat) returns (k: nat)
    requires RisesBounded(f, bound)
    ensures FlatFor(f, k, length)
  {
    k := StandsStill(f, length, bound, 0);
    FlatBetween(f, k, length);
  }

  lemma FindStandstill(t: Text, sa: seq<nat>) returns (k: nat)
    requires |t| >= 2 && IsPerm(sa, |t|)
    ensures FlatFor(TopFn(t, sa), k, |t|)
  {
    TopRisesBounded(t, sa);
    k := FlatSomewhere(TopFn(t, sa), |t|, |t|);
  }

  // ---------------------------------------------------------------- the rounds by position

  /** The interval numbers of a round by text position. */
  ghost function ByPosition(t: Text, sa: seq<nat>, k: nat): (s: seq<nat>)
    requires |t| >= 2 && IsPerm(sa, |t|)
    ensures |s| == |t|
  {
    seq(|t|, x requires 0 <= x < |t| => Round(t, sa, k)[Inverse(sa, |t|)[x]])
  }

  lemma ByPositionTogether(t: Text, sa: seq<nat>, k: nat, x: nat, y: nat)
    requires |t| >= 2 && IsPerm(sa, |t|) && x < |t| && y < |t|
    ensures ByPosition(t, sa, k)[x] == ByPosition(t, sa, k)[y] <==> Together(t, sa, k, x, y)
  {
  }

  lemma ByPositionRanks(t: Text, sa: seq<nat>, k: nat)
    requires |t| >= 2 && IsPerm(sa, |t|)
    ensures FollowsRanks(|t|, Inverse(sa, |t|), ByPosition(t, sa, k))
  {
    var inv, s := Inverse(sa, |t|), ByPosition(t, sa, k);
    forall x, y | 0 <= x < |t| && 0 <= y < |t| && inv[x] <= inv[y] ensures s[x] <= s[y] {
      IntervalsAscend(Source(t, sa, k), inv[x], inv[y]);
    }
  }

  /** While the number of intervals stands still, a round shifts them by one position. */
  lemma RoundShifts(t: Text, sa: seq<nat>, k: nat, k': nat)
    requires |t| >= 2 && IsPerm(sa, |t|) && k' == k + 1 && Top(t, sa, k) == Top(t, sa, k')
    ensures ShiftsByOne(|t|, ByPosition(t, sa, k), ByPosition(t, sa, k'))
  {
    var n, s, next := |t|, ByPosition(t, sa, k), ByPosition(t, sa, k');
    forall x: nat, y: nat | x < n && y < n ensures next[x] == next[y] <==> s[Step(n, x)] == s[Step(n, y)] {
      ByPositionTogether(t, sa, k', x, y);
      ByPositionTogether(t, sa, k, Step(n, x), Step(n, y));
      if Together(t, sa, k', x, y) { TogetherBefore(t, sa, k, k', x, y); }
      if Together(t, sa, k, Step(n, x), Step(n, y)) { TogetherNext(t, sa, k, k', x, y); }
    }
  }

  /** The rounds of a standstill. */
  ghost function Turn(t: Text, sa: seq<nat>, k: nat): (g: seq<seq<nat>>)
    requires |t| >= 2 && IsPerm(sa, |t|)
    ensures |g| == |t| + 1
  {
    seq(|t| + 1, m requires 0 <= m <= |t| => ByPosition(t, sa, k + m))
  }

  lemma TurnAt(t: Text, sa: seq<nat>, k: nat, m: nat, j: nat)
    requires |t| >= 2 && IsPerm(sa, |t|) && m <= |t| && j == k + m
    ensures Turn(t, sa, k)[m] == ByPosition(t, sa, j)
  {
  }

  lemma FlatPair(f: nat -> nat, k: nat, length: nat, a: nat, b: nat)
    requires FlatFor(f, k, length) && k <= a <= k + length && k <= b <= k + length
    ensures f(a) == f(b)
  {
  }

  lemma FlatRoundShifts(t: Text, sa: seq<nat>, k: nat, m: nat, m': nat)
    requires |t| >= 2 && IsPerm(sa, |t|) && FlatFor(TopFn(t, sa), k, |t|) && m' == m + 1 <= |t|
    ensures ShiftsByOne(|t|, Turn(t, sa, k)[m], Turn(t, sa, k)[m'])
  {
    var j, j' := k + m, k + m';
    FlatPair(TopFn(t, sa), k, |t|, j, j');
    RoundShifts(t, sa, j, j');
    TurnAt(t, sa, k, m, j);
    TurnAt(t, sa, k, m', j');
  }

  lemma TurnStands(t: Text, sa: seq<nat>, inv: seq<nat>, g: seq<seq<nat>>, k: nat)
    requires |t| >= 2 && IsPerm(sa, |t|) && FlatFor(TopFn(t, sa), k, |t|)
    requires inv == Inverse(sa, |t|) && g == Turn(t, sa, k)
    ensures Standing(|t|, inv, g)
  {
    forall m | 0 <= m <= |t| ensures FollowsRanks(|t|, inv, g[m]) { ByPositionRanks(t, sa, k + m); }
    forall m: nat, m': nat | m' == m + 1 <= |t| ensures ShiftsByOne(|t|, g[m], g[m']) {
      FlatRoundShifts(t, sa, k, m, m');
    }
  }

  // ---------------------------------------------------------------- a standstill means a stuck text

  lemma TogetherAtFirst(t: Text, sa: seq<nat>, x: nat, y: nat)
    requires |t| >= 2 && IsPerm(sa, |t|) && x < |t| && y < |t| && Together(t, sa, 0, x, y)
    ensures t[x] == t[y]
  {
    var w, a, b := FirstChars(t, sa), Inverse(sa, |t|)[x], Inverse(sa, |t|)[y];
    assert w[a] == t[x] && w[b] == t[y];
    if a <= b { SameIntervalSameItem(w, a, b); } else { SameIntervalSameItem(w, b, a); }
  }

  lemma ForwardUnfolds(n: nat, x: nat, k': nat, k: nat)
    requires x < n && k == k' + 1
    ensures Forward(n, x, k) == Forward(n, Step(n, x), k')
  {
  }

  /** Suffixes together after `k` rounds agree on the character `k` positions further on. */
  lemma {:induction false} TogetherSameChar(t: Text, sa: seq<nat>, k: nat, x: nat, y: nat, x2: nat, y2: nat)
    requires |t| >= 2 && IsPerm(sa, |t|) && x < |t| && y < |t| && Together(t, sa, k, x, y)
    requires x2 == Forward(|t|, x, k) && y2 == Forward(|t|, y, k)
    ensures t[x2] == t[y2]
    decreases k
  {
    if k == 0 {
      TogetherAtFirst(t, sa, x, y);
    } else {
      var k' := k - 1;
      TogetherBefore(t, sa, k', k, x, y);
      ForwardUnfolds(|t|, x, k', k);
      ForwardUnfolds(|t|, y, k', k);
      TogetherSameChar(t, sa, k', Step(|t|, x), Step(|t|, y), x2, y2);
    }
  }

  /** Positions that reach the residue of `u` after `k` steps carry one character. */
  lemma ReachedSameChar(t: Text, sa: seq<nat>, s: seq<nat>, k: nat, u: nat, d: nat, x: nat, y: nat)
    requires |t| >= 2 && IsPerm(sa, |t|) && s == ByPosition(t, sa, k) && IsResidueClass(|t|, s, u, d)
    requires x < |t| && y < |t| && x % d == Forward(|t|, u, k) % d && y % d == Forward(|t|, u, k) % d
    ensures t[x] == t[y]
  {
    var x' := ForwardOnto(|t|, x, k);
    var y' := ForwardOnto(|t|, y, k);
    ForwardCancel(|t|, d, x', u, k);
    ForwardCancel(|t|, d, y', u, k);
    assert s[x'] == s[u] == s[y'];
    ByPositionTogether(t, sa, k, x', y');
    TogetherSameChar(t, sa, k, x', y', x, y);
  }

  lemma ResidueSameChar(t: Text, sa: seq<nat>, s: seq<nat>, k: nat, u: nat, d: nat, p: nat)
    requires |t| >= 2 && IsPerm(sa, |t|) && s == ByPosition(t, sa, k) && IsResidueClass(|t|, s, u, d)
    requires p == Forward(|t|, u, k) % d
    ensures SameCharAt(t, d, p)
  {
    forall x, y | 0 <= x < |t| && 0 <= y < |t| && x % d == p && y % d == p ensures t[x] == t[y] {
      ReachedSameChar(t, sa, s, k, u, d, x, y);
    }
  }

  lemma ResiduesByRank(n: nat, sa: seq<nat>, inv: seq<nat>, g: seq<seq<nat>>, u: nat, d: nat)
    requires IsPerm(sa, n) && inv == Inverse(sa, n)
    requires Standing(n, inv, g) && |g[0]| == n && IsResidueClass(n, g[0], u, d)
    ensures ResiduesTogether(sa, d)
  {
    forall a, m, b | 0 <= a <= m <= b < |sa| && sa[a] % d == sa[b] % d ensures sa[m] % d == sa[a] % d {
      ResiduesAreNeighbours(n, inv, g, u, d, sa[a], sa[m], sa[b]);
    }
  }

  /** A standstill short of the end makes the text stuck. */
  lemma StandstillIsStuck(t: Text, sa: seq<nat>, k: nat, u: nat, v: nat)
    requires |t| >= 2 && IsPerm(sa, |t|) && FlatFor(TopFn(t, sa), k, |t|) && Inverse(sa, |t|)[|t| - 1] == 0
    requires u < |t| && v < |t| && u != v && Together(t, sa, k, u, v)
    ensures Stuck(t, sa)
  {
    var inv, g := Inverse(sa, |t|), Turn(t, sa, k);
    TurnStands(t, sa, inv, g, k);
    ByPositionTogether(t, sa, k, u, v);
    var d := SharedIntervalIsResidueClass(|t|, inv, g, u, v);
    ResidueClassIsStuck(t, sa, inv, g, k, u, d);
  }

  lemma ResidueClassIsStuck(t: Text, sa: seq<nat>, inv: seq<nat>, g: seq<seq<nat>>, k: nat, u: nat, d: nat)
    requires |t| >= 2 && IsPerm(sa, |t|) && inv == Inverse(sa, |t|) && Standing(|t|, inv, g)
    requires |g[0]| == |t| && g[0] == ByPosition(t, sa, k) && IsResidueClass(|t|, g[0], u, d) && d < |t|
    ensures Stuck(t, sa)
  {
    ResiduesByRank(|t|, sa, inv, g, u, d);
    var p := Forward(|t|, u, k) % d;
    ResidueSameChar(t, sa, g[0], k, u, d, p);
    assert StuckBy(t, sa, d, p);
  }

  lemma LastBelow(t: Text, x: nat)
    requires UniqueSmallestLast(t) && x < |t| - 1
    ensures SufLess(t, |t| - 1, x)
  {
  }

  lemma LastIsSmallest(t: Text, sa: seq<nat>)
    requires |t| >= 2 && UniqueSmallestLast(t) && IsSuffixArray(t, sa)
    ensures Inverse(sa, |t|)[|t| - 1] == 0
  {
    var r := Inverse(sa, |t|)[|t| - 1];
    RankOrder(t, sa, r, 0);
    if sa[0] < |t| - 1 { LastBelow(t, sa[0]); }
  }

  lemma NeighboursShare(t: Text, sa: seq<nat>, k: nat, j: nat)
    requires |t| >= 2 && IsPerm(sa, |t|) && 0 < j < |t| && !BoundaryAt(Round(t, sa, k), j)
    ensures Together(t, sa, k, sa[j - 1], sa[j])
  {
    assert Inverse(sa, |t|)[sa[j - 1]] == j - 1 && Inverse(sa, |t|)[sa[j]] == j;
  }

  /** Unless all places are boundaries, two suffixes share an interval. */
  lemma NotDoneShares(t: Text, sa: seq<nat>, k: nat) returns (u: nat, v: nat)
    requires |t| >= 2 && IsPerm(sa, |t|) && !Done(t, sa, k)
    ensures u < |t| && v < |t| && u != v && Together(t, sa, k, u, v)
  {
    var j := MissingBoundary(Source(t, sa, k), |t| - 1);
    u, v := sa[j - 1], sa[j];
    NeighboursShare(t, sa, k, j);
  }

  lemma {:induction false} MissingBoundary(w: seq<nat>, b: nat) returns (j: nat)
    requires |w| >= 2 && b < |w| && Intervals(w)[b] < b
    ensures 0 < j <= b && !BoundaryAt(Intervals(w), j)
    decreases b
  {
    IntervalStep(w, b);
    if BoundaryAt(Intervals(w), b) { j := MissingBoundary(w, b - 1); } else { j := b; }
  }

  /** The loop of ConstructLCP reaches its end exactly on texts that are not stuck. */
  lemma LoopEndsUnlessStuck(t: Text, sa: seq<nat>)
    requires |t| >= 2 && UniqueSmallestLast(t) && IsSuffixArray(t, sa)
    ensures (exists k: nat :: Done(t, sa, k)) <==> !Stuck(t, sa)
  {
    if Stuck(t, sa) {
      var d: nat, p: nat :| StuckBy(t, sa, d, p);
      forall k: nat ensures !Done(t, sa, k) { StuckNeverDone(t, sa, d, p, k); }
    } else {
      var k := FindStandstill(t, sa);
      if !Done(t, sa, k) {
        LastIsSmallest(t, sa);
        var u, v := NotDoneShares(t, sa, k);
        StandstillIsStuck(t, sa, k, u, v);
      }
    }
  }
}
