/**
 The list primitives shared by every pipeline of the project: sorting, permutations of an index
 range, and the counting facts about sets and multisets that the proofs need.

 `Sort` stands for the distributed sort of Thrill.  Its contract says only that the result is some
 permutation of the input, sorted when the comparison is a strict weak order on the input's items;
 no proof in the project relies on the order of equivalent items.
 */
module Lists {

  datatype Option<T> = None | Some(value: T)

  ghost predicate Distinct<T>(s: seq<T>) { forall i, j | 0 <= i < j < |s| :: s[i] != s[j] }

  // ---------------------------------------------------------------- sorting

  /** `less` is irreflexive, transitive and negatively transitive on the items of `s`. */
  ghost predicate StrictWeakOrderOn<T>(less: (T, T) -> bool, s: seq<T>) {
    && (forall x | x in s :: !less(x, x))
    && (forall x, y, z | x in s && y in s && z in s && less(x, y) && less(y, z) :: less(x, z))
    && (forall x, y, z | x in s && y in s && z in s && less(x, z) :: less(x, y) || less(y, z))
  }

  ghost predicate SortedBy<T>(s: seq<T>, less: (T, T) -> bool) {
    forall i, j | 0 <= i < j < |s| :: !less(s[j], s[i])
  }

  /** What a sort promises of its result `r`: the same items, sorted if the comparison is a strict weak order. */
  ghost predicate SortGives<T>(s: seq<T>, less: (T, T) -> bool, r: seq<T>) {
    multiset(r) == multiset(s) && (StrictWeakOrderOn(less, s) ==> SortedBy(r, less))
  }

  function Insert<T>(x: T, s: seq<T>, less: (T, T) -> bool): (r: seq<T>)
    ensures multiset(r) == multiset(s) + multiset{x}
  {
    if s == [] then [x]
    else if less(s[0], x) then
      assert s == [s[0]] + s[1..];
      [s[0]] + Insert(x, s[1..], less)
    else [x] + s
  }

  function Sort<T>(s: seq<T>, less: (T, T) -> bool): (r: seq<T>)
    ensures multiset(r) == multiset(s)
    ensures |r| == |s|
    ensures StrictWeakOrderOn(less, s) ==> SortedBy(r, less)
  {
    if s == [] then []
    else
      var rest := Sort(s[1..], less);
      InsertPreserves(s, rest, less);
      Insert(s[0], rest, less)
  }

  lemma InsertPreserves<T>(s: seq<T>, rest: seq<T>, less: (T, T) -> bool)
    requires s != [] && multiset(rest) == multiset(s[1..])
    requires StrictWeakOrderOn(less, s[1..]) ==> SortedBy(rest, less)
    ensures var r := Insert(s[0], rest, less);
            && multiset(r) == multiset(s) && |r| == |s|
            && (StrictWeakOrderOn(less, s) ==> SortedBy(r, less))
  {
    assert s == [s[0]] + s[1..];
    SameItems(Insert(s[0], rest, less), s);
    SameItems(rest, s[1..]);
    if StrictWeakOrderOn(less, s) {
      assert forall x | x in s[1..] :: x in s;
      InsertSorted(s[0], rest, s, less);
    }
  }

  lemma InsertSorted<T>(x: T, s: seq<T>, all: seq<T>, less: (T, T) -> bool)
    requires StrictWeakOrderOn(less, all) && x in all && (forall y | y in s :: y in all)
    requires SortedBy(s, less)
    ensures SortedBy(Insert(x, s, less), less)
  {
    if s != [] && less(s[0], x) {
      var r := Insert(x, s[1..], less);
      assert SortedBy(s[1..], less);
      InsertSorted(x, s[1..], all, less);
      forall k | 0 <= k < |r| ensures !less(r[k], s[0]) {
        assert r[k] in multiset(r);
        assert r[k] == x || r[k] in s[1..];
      }
    } else if s != [] {
      forall k | 0 <= k < |s| ensures !less(s[k], x) {
        assert s[k] in all && s[0] in all;
      }
    }
  }

  lemma SameItems<T>(a: seq<T>, b: seq<T>)
    requires multiset(a) == multiset(b)
    ensures |a| == |b|
    ensures forall x | x in a :: x in b
    ensures forall x | x in b :: x in a
  {
    assert |multiset(a)| == |a| && |multiset(b)| == |b|;
    forall x | x in a ensures x in b { assert x in multiset(a); }
    forall x | x in b ensures x in a { assert x in multiset(b); }
  }

  lemma IndexIn<T>(x: T, s: seq<T>) returns (k: nat)
    requires x in s
    ensures k < |s| && s[k] == x
  {
    k :| 0 <= k < |s| && s[k] == x;
  }

  // ---------------------------------------------------------------- permutations of 0..n-1

  /** `p` lists every number below `n` exactly once. */
  ghost predicate IsPerm(p: seq<nat>, n: nat) {
    && |p| == n
    && (forall k | 0 <= k < n :: p[k] < n)
    && (forall i, j | 0 <= i < j < n :: p[i] != p[j])
  }

  function Map<A, B>(f: A -> B, s: seq<A>): (r: seq<B>)
    ensures |r| == |s| && forall k | 0 <= k < |s| :: r[k] == f(s[k])
  {
    seq(|s|, k requires 0 <= k < |s| => f(s[k]))
  }

  /** `s` without the item at `k`. */
  function Remove<T>(s: seq<T>, k: nat): (r: seq<T>)
    requires k < |s|
    ensures |r| == |s| - 1
    ensures multiset(s) == multiset(r) + multiset{s[k]}
    ensures multiset(r) == multiset(s) - multiset{s[k]}
  {
    assert s == s[..k] + [s[k]] + s[k + 1..];
    s[..k] + s[k + 1..]
  }

  /** No item occurs twice in `s` exactly when no item has multiplicity above one. */
  lemma {:induction false} DistinctCounts<T>(s: seq<T>)
    ensures (forall i, j | 0 <= i < j < |s| :: s[i] != s[j]) <==> (forall x | x in s :: multiset(s)[x] <= 1)
  {
    if s != [] {
      var r := s[1..];
      DistinctCounts(r);
      assert s == [s[0]] + r;
      if forall i, j | 0 <= i < j < |s| :: s[i] != s[j] {
        forall x | x in s ensures multiset(s)[x] <= 1 {
          if x == s[0] {
            assert x !in r;
            assert multiset(r)[x] == 0;
          } else {
            assert x in r;
          }
        }
      }
      if forall x | x in s :: multiset(s)[x] <= 1 {
        assert multiset(s)[s[0]] <= 1;
        assert multiset(r)[s[0]] == 0;
        assert s[0] !in r;
        forall x | x in r ensures multiset(r)[x] <= 1 { assert x in s; }
        forall i, j | 0 <= i < j < |s| ensures s[i] != s[j] {
          if i > 0 { assert s[i] == r[i - 1] && s[j] == r[j - 1]; } else { assert s[j] == r[j - 1]; }
        }
      }
    }
  }

  lemma PermOfMultiset(a: seq<nat>, b: seq<nat>, n: nat)
    requires multiset(a) == multiset(b) && IsPerm(a, n)
    ensures IsPerm(b, n)
  {
    SameItems(a, b);
    DistinctCounts(a);
    DistinctCounts(b);
    forall k | 0 <= k < n ensures b[k] < n {
      assert b[k] in b;
      var m := IndexIn(b[k], a);
    }
  }

  /** The numbers below `n`. */
  ghost function Below(n: nat): (s: set<nat>)
    ensures |s| == n && forall x: nat :: x in s <==> x < n
  {
    if n == 0 then {} else Below(n - 1) + {n - 1}
  }

  function Items<T>(s: seq<T>): (r: set<T>)
    ensures (forall x | x in r :: x in s) && (forall x | x in s :: x in r)
  {
    set x | x in s
  }

  lemma {:induction false} DistinctItems<T>(s: seq<T>)
    requires forall i, j | 0 <= i < j < |s| :: s[i] != s[j]
    ensures |Items(s)| == |s|
  {
    if s != [] {
      DistinctItems(s[1..]);
      assert Items(s) == {s[0]} + Items(s[1..]);
      assert s[0] !in s[1..];
    } else {
      assert Items(s) == {};
    }
  }

  lemma SubsetCard<T>(a: set<T>, b: set<T>)
    requires a <= b
    ensures |a| <= |b|
    ensures |a| == |b| ==> a == b
  {
    assert b == a + (b - a);
    assert |b| == |a| + |b - a|;
  }

  lemma PermHits(p: seq<nat>, n: nat, x: nat)
    requires IsPerm(p, n) && x < n
    ensures x in p
  {
    DistinctItems(p);
    SubsetCard(Items(p), Below(n));
  }

  /** The place of `x` in `s`. */
  ghost function PlaceOf<T>(x: T, s: seq<T>): (k: nat)
    requires x in s
    ensures k < |s| && s[k] == x
  {
    var k :| 0 <= k < |s| && s[k] == x; k
  }

  /** The inverse permutation. */
  ghost function Inverse(p: seq<nat>, n: nat): (r: seq<nat>)
    requires IsPerm(p, n)
    ensures IsPerm(r, n)
    ensures forall k | 0 <= k < n :: r[p[k]] == k
    ensures forall x | 0 <= x < n :: p[r[x]] == x
  {
    assert forall x: nat | x < n :: x in p by {
      forall x: nat | x < n ensures x in p { PermHits(p, n, x); }
    }
    seq(n, x requires 0 <= x < n => PlaceOf<nat>(x, p))
  }

  // ---------------------------------------------------------------- sorted lists

  /** Two sorted arrangements of the same items agree when distinct items are always comparable. */
  lemma {:induction false} SortedUnique<T>(a: seq<T>, b: seq<T>, less: (T, T) -> bool)
    requires multiset(a) == multiset(b)
    requires SortedBy(a, less) && SortedBy(b, less)
    requires forall x, y | x in a && y in a && x != y :: less(x, y) || less(y, x)
    ensures a == b
  {
    SameItems(a, b);
    if a != [] {
      SortedHead(a, b, less);
      assert a == [a[0]] + a[1..] && b == [b[0]] + b[1..];
      assert Remove(a, 0) == a[1..] && Remove(b, 0) == b[1..];
      assert multiset(a[1..]) == multiset(b[1..]);
      assert forall x | x in a[1..] :: x in a;
      SortedUnique(a[1..], b[1..], less);
    }
  }

  lemma SortedHead<T>(a: seq<T>, b: seq<T>, less: (T, T) -> bool)
    requires multiset(a) == multiset(b) && a != [] && b != []
    requires SortedBy(a, less) && SortedBy(b, less)
    requires forall x, y | x in a && y in a && x != y :: less(x, y) || less(y, x)
    ensures a[0] == b[0]
  {
    SameItems(a, b);
    assert a[0] in a && b[0] in b;
    var i := IndexIn(b[0], a);
    var j := IndexIn(a[0], b);
    if i > 0 && j > 0 {
      assert !less(a[i], a[0]) && !less(b[j], b[0]);
    }
  }

  /** `k` in front of a permutation, with room made for it. */
  ghost function PermWithHead(h: seq<nat>, k: nat): (g: seq<nat>)
    requires IsPerm(h, |h|) && k <= |h|
    ensures IsPerm(g, |h| + 1) && g[0] == k
  {
    [k] + seq(|h|, i requires 0 <= i < |h| => if h[i] < k then h[i] else h[i] + 1)
  }

  lemma HeadRearranged<T>(a: seq<T>, b: seq<T>, h: seq<nat>, k: nat, i: nat)
    requires k < |a| && |b| == |a| && IsPerm(h, |a| - 1) && i < |a| - 1
    requires b[1..][i] == Remove(a, k)[h[i]]
    ensures b[i + 1] == a[PermWithHead(h, k)[i + 1]]
  {
  }

  /** Two lists with the same items are rearrangements of each other. */
  lemma {:induction false} Rearrangement<T>(a: seq<T>, b: seq<T>) returns (g: seq<nat>)
    requires multiset(a) == multiset(b)
    ensures IsPerm(g, |a|) && |b| == |a| && forall i | 0 <= i < |a| :: b[i] == a[g[i]]
    decreases |a|
  {
    SameItems(a, b);
    if b == [] {
      g := [];
    } else {
      assert b[0] in b;
      var k := IndexIn(b[0], a);
      assert Remove(b, 0) == b[1..];
      var h := Rearrangement(Remove(a, k), b[1..]);
      g := PermWithHead(h, k);
      TailRearranged(a, b, h, k);
    }
  }

  lemma TailRearranged<T>(a: seq<T>, b: seq<T>, h: seq<nat>, k: nat)
    requires k < |a| == |b| && IsPerm(h, |a| - 1)
    requires forall i | 0 <= i < |a| - 1 :: b[1..][i] == Remove(a, k)[h[i]]
    ensures forall i | 0 < i < |a| :: b[i] == a[PermWithHead(h, k)[i]]
  {
    forall i | 0 < i < |a| ensures b[i] == a[PermWithHead(h, k)[i]] { HeadRearranged(a, b, h, k, i - 1); }
  }

  /** Rearranging a list by a permutation keeps its multiset of items. */
  lemma {:induction false} RearrangedMultiset<T>(a: seq<T>, b: seq<T>, f: seq<nat>)
    requires |a| == |b| && IsPerm(f, |a|)
    requires forall k | 0 <= k < |a| :: b[f[k]] == a[k]
    ensures multiset(a) == multiset(b)
  {
    var n := |a|;
    if n > 0 {
      var m := f[n - 1];
      var b' := b[..m] + b[m + 1..];
      var f' := seq(n - 1, k requires 0 <= k < n - 1 => if f[k] <= m then f[k] else f[k] - 1);
      forall k | 0 <= k < n - 1 ensures f[k] != m && f'[k] < n - 1 && b'[f'[k]] == a[k] { }
      RearrangedMultiset(a[..n - 1], b', f');
      assert a == a[..n - 1] + [a[n - 1]];
      assert b == b[..m] + [b[m]] + b[m + 1..];
    }
  }

  /** Sorting by a key that numbers the items from zero puts every item at its number. */
  lemma SortByNumber<T>(z: seq<T>, w: seq<T>, key: T -> nat, less: (T, T) -> bool)
    requires multiset(z) == multiset(w)
    requires forall k | 0 <= k < |w| :: key(w[k]) == k
    requires forall x, y | x in z && y in z :: less(x, y) <==> key(x) < key(y)
    ensures Sort(z, less) == w
  {
    SameItems(z, w);
    OrderedByKey(z, key, less);
    var q := Sort(z, less);
    SameItems(z, q);
    assert forall x | x in q :: x in z && x in w;
    forall x, y | x in q && y in q && x != y ensures less(x, y) || less(y, x) { }
    forall i, j | 0 <= i < j < |w| ensures !less(w[j], w[i]) { assert w[i] in w && w[j] in w; }
    SortedUnique(q, w, less);
  }

  /** Two permutations of the same range have the same items. */
  lemma PermsHaveSameItems(a: seq<nat>, b: seq<nat>, n: nat)
    requires IsPerm(a, n) && IsPerm(b, n)
    ensures multiset(a) == multiset(b)
  {
    var back := Inverse(b, n);
    var f := seq<nat>(n, k requires 0 <= k < n => back[a[k]]);
    RearrangedMultiset(a, b, f);
  }

  lemma MapMultiset<A, B>(f: A -> B, a: seq<A>, b: seq<A>)
    requires multiset(a) == multiset(b)
    ensures multiset(Map(f, a)) == multiset(Map(f, b))
  {
    var g := Rearrangement(a, b);
    RearrangedMultiset(Map(f, b), Map(f, a), g);
  }

  /** The items of `z` moved to the places `f` gives them. */
  ghost function Moved<T>(z: seq<T>, f: seq<nat>): (w: seq<T>)
    requires IsPerm(f, |z|)
    ensures |w| == |z|
  {
    var back := Inverse(f, |z|);
    seq(|z|, x requires 0 <= x < |z| => z[back[x]])
  }

  lemma MovedAt<T>(z: seq<T>, f: seq<nat>, i: nat)
    requires IsPerm(f, |z|) && i < |z|
    ensures Moved(z, f)[f[i]] == z[i]
  {
  }

  lemma MovedFrom<T>(z: seq<T>, f: seq<nat>, x: nat) returns (i: nat)
    requires IsPerm(f, |z|) && x < |z|
    ensures i < |z| && f[i] == x && Moved(z, f)[x] == z[i]
  {
    i := Inverse(f, |z|)[x];
  }

  /** Sorting by a key that is a permutation moves every item to its key. */
  lemma SortToPlaces<T>(z: seq<T>, f: seq<nat>, key: T -> nat, less: (T, T) -> bool)
    requires IsPerm(f, |z|) && forall i | 0 <= i < |z| :: key(z[i]) == f[i]
    requires forall x, y | x in z && y in z :: less(x, y) <==> key(x) < key(y)
    ensures Sort(z, less) == Moved(z, f)
  {
    var w := Moved(z, f);
    forall i | 0 <= i < |z| ensures w[f[i]] == z[i] { MovedAt(z, f, i); }
    RearrangedMultiset(z, w, f);
    forall x: nat | x < |z| ensures key(w[x]) == x { var i := MovedFrom(z, f, x); }
    SortByNumber(z, w, key, less);
  }

  lemma OrderedByKey<T>(s: seq<T>, key: T -> nat, less: (T, T) -> bool)
    requires forall x, y | x in s && y in s :: less(x, y) <==> key(x) < key(y)
    ensures StrictWeakOrderOn(less, s)
  {
  }

  // ---------------------------------------------------------------- prefix sums

  /** Thrill's inclusive PrefixSum over numbers. */
  function PrefixSum(s: seq<nat>): (r: seq<nat>)
    ensures |r| == |s|
  {
    if s == [] then []
    else
      var p := PrefixSum(s[..|s| - 1]);
      p + [(if p == [] then 0 else p[|p| - 1]) + s[|s| - 1]]
  }

  lemma {:induction false} PrefixSumAt(s: seq<nat>, k: nat)
    requires k < |s|
    ensures PrefixSum(s)[k] == (if k > 0 then PrefixSum(s)[k - 1] else 0) + s[k]
    decreases |s|
  {
    if k < |s| - 1 { PrefixSumAt(s[..|s| - 1], k); }
  }

  /** The image of a finite set is no larger, and equally large only for an injective function. */
  lemma {:induction false} ImageCard<A, B>(s: set<A>, f: A -> B, image: set<B>)
    requires image == set x | x in s :: f(x)
    ensures |image| <= |s|
    ensures |image| == |s| ==> forall x, y | x in s && y in s && f(x) == f(y) :: x == y
    decreases |s|
  {
    if s == {} {
      assert image == {};
    } else {
      var x :| x in s;
      var rest := s - {x};
      var ri := set y | y in rest :: f(y);
      ImageCard(rest, f, ri);
      assert image == ri + {f(x)};
      if f(x) in ri {
        assert image == ri;
      } else {
        forall y | y in rest ensures f(y) != f(x) { assert f(y) in ri; }
      }
    }
  }

  // ---------------------------------------------------------------- ranks of indexes

  datatype IndexRank = IndexRank(index: nat, rank: nat)

  function IndexOf(x: IndexRank): nat { x.index }

  function RankOf(x: IndexRank): nat { x.rank }

  predicate ByIndex(a: IndexRank, b: IndexRank) { a.index < b.index }

  lemma InitOrLast<T>(s: seq<T>)
    requires s != []
    ensures forall x :: x in s <==> x in s[..|s| - 1] || x == s[|s| - 1]
  {
    assert s == s[..|s| - 1] + [s[|s| - 1]];
  }

  /** The maximum of a list, zero for the empty list. */
  function Max(s: seq<nat>): (m: nat)
    ensures (forall x | x in s :: x <= m) && (s == [] || m in s)
  {
    if s == [] then 0 else
      var m := Max(s[..|s| - 1]);
      InitOrLast(s);
      if s[|s| - 1] > m then s[|s| - 1] else m
  }

  /** A list zipped with the places of its items. */
  function NumberRanks(s: seq<nat>): (r: seq<IndexRank>)
    ensures |r| == |s|
  {
    seq(|s|, i requires 0 <= i < |s| => IndexRank(s[i], i))
  }

  ghost function Pairs(inv: seq<nat>): (r: seq<IndexRank>)
    ensures |r| == |inv| && forall p | 0 <= p < |inv| :: r[p] == IndexRank(p, inv[p])
  {
    seq(|inv|, p requires 0 <= p < |inv| => IndexRank(p, inv[p]))
  }

  /** Numbering a permutation and sorting by its values gives the inverse permutation. */
  lemma SortNumbered(s: seq<nat>, inv: seq<nat>)
    requires IsPerm(s, |s|) && inv == Inverse(s, |s|)
    ensures Sort(NumberRanks(s), ByIndex) == Pairs(inv)
  {
    RearrangedMultiset(NumberRanks(s), Pairs(inv), s);
    SortByNumber(NumberRanks(s), Pairs(inv), IndexOf, ByIndex);
  }
}
