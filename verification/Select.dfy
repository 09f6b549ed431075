/**
 Selection by two pivots (examples/select/select.hpp:83-191).

 The pivots of every level come from outside, as a list of pairs; the sampler promises two ordered items
 of the data.  The result is `None` when the list ends before the recursion does.
 */
module Select {
  import opened Lists

  const baseCaseSize: nat := 1024

  function Filter<T>(s: seq<T>, p: T -> bool): (r: seq<T>)
    ensures (forall x | x in r :: x in s && p(x)) && forall x | x in s && p(x) :: x in r
    ensures |r| <= |s|
  {
    if s == [] then [] else
      assert s == [s[0]] + s[1..];
      (if p(s[0]) then [s[0]] else []) + Filter(s[1..], p)
  }

  function Count<T>(s: seq<T>, p: T -> bool): nat { |Filter(s, p)| }

  function Below<T>(less: (T, T) -> bool, x: T): T -> bool { y => less(y, x) }

  function Above<T>(less: (T, T) -> bool, x: T): T -> bool { y => less(x, y) }

  function NotAbove<T>(less: (T, T) -> bool, x: T): T -> bool { y => !less(x, y) }

  function Between<T>(less: (T, T) -> bool, l: T, r: T): T -> bool { y => !less(y, l) && !less(r, y) }

  /** Two ordered items of the data. */
  predicate Pivots<T(==)>(s: seq<T>, less: (T, T) -> bool, p: (T, T)) { p.0 in s && p.1 in s && !less(p.1, p.0) }

  /** What one level does: it has found the item, or goes on with a part of the data and a rank in it. */
  datatype Next<T> = Found(item: T) | Recurse(part: seq<T>, rank: int)

  function Level<T>(s: seq<T>, rank: nat, less: (T, T) -> bool, left: T, right: T): Next<T> {
    var leftSize, middleSize := Count(s, Below(less, left)), Count(s, Between(less, left, right));
    if rank == leftSize then Found(left)
    else if rank == leftSize + middleSize - 1 then Found(right)
    else if rank < leftSize then Recurse(Filter(s, Below(less, left)), rank)
    else if leftSize + middleSize <= rank then Recurse(Filter(s, Above(less, right)), rank - leftSize - middleSize)
    else Recurse(Filter(s, Between(less, left, right)), rank - leftSize)
  }

  function Select<T(==)>(s: seq<T>, rank: nat, less: (T, T) -> bool, pivots: seq<(T, T)>): (r: Option<T>)
    requires rank < |s|
    decreases |pivots|
  {
    if |s| <= baseCaseSize then Some(Sort(s, less)[rank])
    else if pivots == [] || !Pivots(s, less, pivots[0]) then None
    else
      match Level(s, rank, less, pivots[0].0, pivots[0].1)
      case Found(item) => Some(item)
      case Recurse(part, rest) => if 0 <= rest < |part| then Select(part, rest, less, pivots[1..]) else None
  }

  // ---------------------------------------------------------------- order statistics

  /** `x` is an item of `s` that can stand at place `rank` when `s` is sorted. */
  ghost predicate HasRank<T>(s: seq<T>, less: (T, T) -> bool, x: T, rank: nat) {
    && x in s
    && Count(s, Below(less, x)) <= rank < Count(s, NotAbove(less, x))
  }

  lemma CountCons<T>(x: T, s: seq<T>, p: T -> bool)
    ensures Count([x] + s, p) == (if p(x) then 1 else 0) + Count(s, p)
  {
    assert ([x] + s)[1..] == s;
  }

  /** Counting `q` by counting `p` and what `q` has among `r`. */
  lemma {:induction false} CountSplits<T>(s: seq<T>, q: T -> bool, p: T -> bool, r: T -> bool)
    requires forall x | x in s :: (q(x) <==> p(x) || (r(x) && q(x))) && !(p(x) && r(x))
    ensures Count(s, q) == Count(s, p) + Count(Filter(s, r), q)
  {
    if s != [] {
      assert s == [s[0]] + s[1..];
      CountSplits(s[1..], q, p, r);
      if r(s[0]) { CountCons(s[0], Filter(s[1..], r), q); } else { assert Filter(s, r) == Filter(s[1..], r); }
    }
  }

  lemma {:induction false} CountNone<T>(s: seq<T>, p: T -> bool)
    requires forall x | x in s :: !p(x)
    ensures Count(s, p) == 0
  {
    if s != [] { CountNone(s[1..], p); }
  }

  lemma {:induction false} CountSame<T>(s: seq<T>, p: T -> bool, q: T -> bool)
    requires forall x | x in s :: p(x) <==> q(x)
    ensures Count(s, p) == Count(s, q)
  {
    if s != [] { CountSame(s[1..], p, q); }
  }

  lemma {:induction false} CountFew<T>(s: seq<T>, p: T -> bool, k: nat)
    requires k <= |s| && forall i | k <= i < |s| :: !p(s[i])
    ensures Count(s, p) <= k
  {
    if k == 0 { CountNone(s, p); } else { CountFew(s[1..], p, k - 1); }
  }

  lemma {:induction false} CountMany<T>(s: seq<T>, p: T -> bool, k: nat)
    requires k <= |s| && forall i | 0 <= i < k :: p(s[i])
    ensures Count(s, p) >= k
  {
    if k > 0 { CountMany(s[1..], p, k - 1); }
  }

  lemma {:induction false} CountRemoved<T>(s: seq<T>, p: T -> bool, k: nat)
    requires k < |s|
    ensures Count(s, p) == Count(Remove(s, k), p) + (if p(s[k]) then 1 else 0)
  {
    var tail := s[1..];
    if k == 0 {
      assert Remove(s, 0) == tail;
    } else {
      CountRemoved(tail, p, k - 1);
      RemoveBehind(s, k, k - 1);
      CountCons(s[0], Remove(tail, k - 1), p);
      assert s == [s[0]] + tail;
      CountCons(s[0], tail, p);
    }
  }

  lemma RemoveBehind<T>(s: seq<T>, k: nat, k': nat)
    requires k' + 1 == k < |s|
    ensures Remove(s, k) == [s[0]] + Remove(s[1..], k')
  {
  }

  lemma {:induction false} CountOfItems<T>(a: seq<T>, b: seq<T>, p: T -> bool)
    requires multiset(a) == multiset(b)
    ensures Count(a, p) == Count(b, p)
  {
    SameItems(a, b);
    if a != [] {
      assert a[0] in a;
      var k := IndexIn(a[0], b);
      CountOfItems(Remove(a, 0), Remove(b, k), p);
      CountRemoved(a, p, 0);
      CountRemoved(b, p, k);
    }
  }

  /** In a sorted list, an item's place lies between the counts of items below it and not above it. */
  lemma PlaceInSorted<T>(q: seq<T>, less: (T, T) -> bool, rank: nat)
    requires rank < |q| && SortedBy(q, less) && !less(q[rank], q[rank])
    ensures Count(q, Below(less, q[rank])) <= rank < Count(q, NotAbove(less, q[rank]))
  {
    CountFew(q, Below(less, q[rank]), rank);
    CountMany(q, NotAbove(less, q[rank]), rank + 1);
  }

  lemma SortedHasRank<T>(s: seq<T>, less: (T, T) -> bool, rank: nat)
    requires rank < |s| && StrictWeakOrderOn(less, s)
    ensures HasRank(s, less, Sort(s, less)[rank], rank)
  {
    var q := Sort(s, less);
    var x := q[rank];
    SameItems(s, q);
    assert x in q && x in s;
    PlaceInSorted(q, less, rank);
    CountOfItems(s, q, Below(less, x));
    CountOfItems(s, q, NotAbove(less, x));
  }

  /** Items that `p` keeps, with everything `less` puts before or beside `x` kept with `x`, up to a shift. */
  lemma PartHasRank<T>(s: seq<T>, less: (T, T) -> bool, x: T, rank: nat, part: T -> bool, before: T -> bool)
    requires HasRank(Filter(s, part), less, x, rank)
    requires forall y | y in s :: !(before(y) && part(y)) && (before(y) ==> less(y, x))
    requires forall y | y in s && !before(y) && !part(y) :: less(x, y)
    requires StrictWeakOrderOn(less, s)
    ensures HasRank(s, less, x, rank + Count(s, before))
  {
    forall y | y in s ensures less(y, x) ==> !less(x, y) { assert x in s; }
    CountSplits(s, Below(less, x), before, part);
    CountSplits(s, NotAbove(less, x), before, part);
  }

  lemma LeftPivotHasRank<T>(s: seq<T>, less: (T, T) -> bool, left: T)
    requires StrictWeakOrderOn(less, s) && left in s
    ensures HasRank(s, less, left, Count(s, Below(less, left)))
  {
    var same := (y: T) => !less(y, left) && !less(left, y);
    CountSplits(s, NotAbove(less, left), Below(less, left), same);
    assert left in Filter(Filter(s, same), NotAbove(less, left));
  }

  lemma RightPivotHasRank<T>(s: seq<T>, less: (T, T) -> bool, left: T, right: T)
    requires StrictWeakOrderOn(less, s) && Pivots(s, less, (left, right))
    ensures Count(s, NotAbove(less, right)) == Count(s, Below(less, left)) + Count(s, Between(less, left, right))
    ensures Count(s, NotAbove(less, right)) > 0 && HasRank(s, less, right, Count(s, NotAbove(less, right)) - 1)
  {
    CountSplits(s, NotAbove(less, right), Below(less, left), Between(less, left, right));
    CountSame(Filter(s, Between(less, left, right)), NotAbove(less, right), _ => true);
    CountMany(Filter(s, Between(less, left, right)), _ => true, |Filter(s, Between(less, left, right))|);
    LeftPivotHasRank(s, less, right);
  }

  /** Whenever Select returns, its result has the rank asked for, for any pivots. */
  lemma {:induction false} SelectIsRight<T>(s: seq<T>, rank: nat, less: (T, T) -> bool, pivots: seq<(T, T)>)
    requires rank < |s| && StrictWeakOrderOn(less, s)
    ensures var r := Select(s, rank, less, pivots); r.Some? ==> HasRank(s, less, r.value, rank)
    decreases |pivots|
  {
    if |s| <= baseCaseSize {
      SortedHasRank(s, less, rank);
    } else if pivots != [] && Pivots(s, less, pivots[0]) {
      var (left, right) := pivots[0];
      match Level(s, rank, less, left, right) {
        case Found(item) => FoundHasRank(s, rank, less, left, right);
        case Recurse(part, rest) =>
          if 0 <= rest < |part| {
            PartOfOrder(s, part, less);
            SelectIsRight(part, rest, less, pivots[1..]);
            var r := Select(part, rest, less, pivots[1..]);
            if r.Some? { RecursionHasRank(s, rank, less, left, right, r.value); }
          }
      }
    }
  }

  lemma PartOfOrder<T>(s: seq<T>, part: seq<T>, less: (T, T) -> bool)
    requires StrictWeakOrderOn(less, s) && forall x | x in part :: x in s
    ensures StrictWeakOrderOn(less, part)
  {
  }

  lemma FoundHasRank<T>(s: seq<T>, rank: nat, less: (T, T) -> bool, left: T, right: T)
    requires StrictWeakOrderOn(less, s) && Pivots(s, less, (left, right)) && Level(s, rank, less, left, right).Found?
    ensures HasRank(s, less, Level(s, rank, less, left, right).item, rank)
  {
    RightPivotHasRank(s, less, left, right);
    LeftPivotHasRank(s, less, left);
  }

  /** An item of the right rank in the part has the right rank in the whole. */
  lemma RecursionHasRank<T>(s: seq<T>, rank: nat, less: (T, T) -> bool, left: T, right: T, x: T)
    requires StrictWeakOrderOn(less, s) && Pivots(s, less, (left, right)) && Level(s, rank, less, left, right).Recurse?
    requires var next := Level(s, rank, less, left, right); next.rank >= 0 && HasRank(next.part, less, x, next.rank)
    ensures HasRank(s, less, x, rank)
  {
    var next := Level(s, rank, less, left, right);
    var leftSize, middleSize := Count(s, Below(less, left)), Count(s, Between(less, left, right));
    if rank < leftSize {
      CountNone(s, _ => false);
      PartHasRank(s, less, x, next.rank, Below(less, left), _ => false);
    } else if leftSize + middleSize <= rank {
      RightPivotHasRank(s, less, left, right);
      PartHasRank(s, less, x, next.rank, Above(less, right), NotAbove(less, right));
    } else {
      PartHasRank(s, less, x, next.rank, Between(less, left, right), Below(less, left));
    }
  }

  // ---------------------------------------------------------------- when Select returns

  lemma {:induction false} FilterAll<T>(s: seq<T>, p: T -> bool)
    requires forall x | x in s :: p(x)
    ensures Filter(s, p) == s
  {
    if s != [] { FilterAll(s[1..], p); }
  }

  lemma {:induction false} FilterDrops<T>(s: seq<T>, p: T -> bool, x: T)
    requires x in s && !p(x)
    ensures |Filter(s, p)| < |s|
  {
    if s[0] != x { FilterDrops(s[1..], p, x); }
  }

  /** The three parts hold all items. */
  lemma PartsHoldAll<T>(s: seq<T>, less: (T, T) -> bool, left: T, right: T)
    requires StrictWeakOrderOn(less, s) && Pivots(s, less, (left, right))
    ensures |s| == Count(s, Below(less, left)) + Count(s, Between(less, left, right)) + |Filter(s, Above(less, right))|
  {
    var all := (_: T) => true;
    RightPivotHasRank(s, less, left, right);
    CountSplits(s, all, NotAbove(less, right), Above(less, right));
    FilterAll(s, all);
    FilterAll(Filter(s, Above(less, right)), all);
  }

  /** A level has found the item exactly when `rank` items are less than the left pivot, or all but `rank + 1` are
      greater than the right one; the item is that pivot. */
  lemma LevelFinds<T>(s: seq<T>, rank: nat, less: (T, T) -> bool, left: T, right: T)
    requires StrictWeakOrderOn(less, s) && Pivots(s, less, (left, right)) && rank < |s|
    ensures var next := Level(s, rank, less, left, right);
            && (next.Found? <==>
                  Count(s, Below(less, left)) == rank || Count(s, Above(less, right)) == |s| - rank - 1)
            && (next.Found? ==>
                  next.item == if Count(s, Below(less, left)) == rank then left else right)
  {
    PartsHoldAll(s, less, left, right);
  }

  /** A level that goes on asks for a rank that exists in its part. */
  lemma LevelAsksInRange<T>(s: seq<T>, rank: nat, less: (T, T) -> bool, left: T, right: T)
    requires StrictWeakOrderOn(less, s) && Pivots(s, less, (left, right)) && rank < |s|
    ensures var next := Level(s, rank, less, left, right); next.Recurse? ==> 0 <= next.rank < |next.part|
  {
    PartsHoldAll(s, less, left, right);
  }

  /** No item is less than the left pivot and none greater than the right one. */
  ghost predicate Extreme<T>(s: seq<T>, less: (T, T) -> bool, left: T, right: T) {
    forall x | x in s :: !less(x, left) && !less(right, x)
  }

  /** A level that goes on has fewer items to look at, unless its pivots are extreme; then it has them all. */
  lemma LevelShrinks<T>(s: seq<T>, rank: nat, less: (T, T) -> bool, left: T, right: T)
    requires StrictWeakOrderOn(less, s) && Pivots(s, less, (left, right)) && rank < |s|
    requires Level(s, rank, less, left, right).Recurse?
    ensures var part := Level(s, rank, less, left, right).part;
            (|part| < |s| <==> !Extreme(s, less, left, right)) && (Extreme(s, less, left, right) ==> part == s)
  {
    if Extreme(s, less, left, right) {
      ExtremeRepeats(s, rank, less, left, right);
    } else {
      PartsShrink(s, less, left, right);
      PartIsOneOf(s, rank, less, left, right);
    }
  }

  lemma PartIsOneOf<T>(s: seq<T>, rank: nat, less: (T, T) -> bool, left: T, right: T)
    requires rank < |s| && Level(s, rank, less, left, right).Recurse?
    ensures var part := Level(s, rank, less, left, right).part;
            || part == Filter(s, Below(less, left))
            || part == Filter(s, Above(less, right))
            || part == Filter(s, Between(less, left, right))
  {
  }

  lemma ExtremeRepeats<T>(s: seq<T>, rank: nat, less: (T, T) -> bool, left: T, right: T)
    requires Extreme(s, less, left, right) && rank < |s| && Level(s, rank, less, left, right).Recurse?
    ensures Level(s, rank, less, left, right).part == s
  {
    CountNone(s, Below(less, left));
    FilterAll(s, Between(less, left, right));
  }

  lemma PartsShrink<T>(s: seq<T>, less: (T, T) -> bool, left: T, right: T)
    requires StrictWeakOrderOn(less, s) && left in s && right in s && !Extreme(s, less, left, right)
    ensures |Filter(s, Below(less, left))| < |s| && |Filter(s, Above(less, right))| < |s|
         && |Filter(s, Between(less, left, right))| < |s|
  {
    FilterDrops(s, Below(less, left), left);
    FilterDrops(s, Above(less, right), right);
    var x :| x in s && (less(x, left) || less(right, x));
    FilterDrops(s, Between(less, left, right), x);
  }

  /** With extreme pivots, a level with a rank strictly inside repeats itself. */
  lemma SelectCanStandStill<T>(s: seq<T>, rank: nat, less: (T, T) -> bool, pivots: seq<(T, T)>)
    requires |s| > baseCaseSize && 0 < rank < |s| - 1 && pivots != [] && Pivots(s, less, pivots[0])
    requires Extreme(s, less, pivots[0].0, pivots[0].1)
    ensures Select(s, rank, less, pivots) == Select(s, rank, less, pivots[1..])
  {
    var (left, right) := pivots[0];
    CountNone(s, Below(less, left));
    FilterAll(s, Between(less, left, right));
    assert Level(s, rank, less, left, right) == Recurse(s, rank);
  }

  /** On every level that is reached, as far as the list goes, the pivots are ordered items of the data and
      not extreme. */
  ghost predicate GoodPivots<T>(s: seq<T>, rank: int, less: (T, T) -> bool, pivots: seq<(T, T)>)
    decreases |pivots|
  {
    |s| > baseCaseSize && pivots != [] && rank >= 0 ==>
      && Pivots(s, less, pivots[0]) && !Extreme(s, less, pivots[0].0, pivots[0].1)
      && var next := Level(s, rank, less, pivots[0].0, pivots[0].1);
         next.Recurse? ==> GoodPivots(next.part, next.rank, less, pivots[1..])
  }

  /** With enough pairs of pivots, none extreme for its level, Select returns. */
  lemma {:induction false} SelectReturns<T>(s: seq<T>, rank: nat, less: (T, T) -> bool, pivots: seq<(T, T)>)
    requires rank < |s| && StrictWeakOrderOn(less, s) && GoodPivots(s, rank, less, pivots)
    requires |s| <= baseCaseSize + |pivots|
    ensures Select(s, rank, less, pivots).Some?
    decreases |pivots|
  {
    if |s| > baseCaseSize {
      var (left, right) := pivots[0];
      var next := Level(s, rank, less, left, right);
      if next.Recurse? {
        LevelAsksInRange(s, rank, less, left, right);
        LevelShrinks(s, rank, less, left, right);
        PartOfOrder(s, next.part, less);
        SelectReturns(next.part, next.rank, less, pivots[1..]);
      }
    }
  }
}
