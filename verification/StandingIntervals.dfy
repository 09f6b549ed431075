/**
 Interval numbers that only shift along a cyclic text for a whole turn.

 `g[m][x]` is the interval of the suffix at position `x` after `m` rounds, `inv[x]` its rank.  When
 intervals follow the ranks and every round only shifts them by one position, any interval of more
 than one suffix is a residue class of positions, and the positions of every residue are neighbours.
 */
module StandingIntervals {
  import opened CyclicShifts
  import opened Lists

  /** Intervals are ranges of ranks. */
  ghost predicate FollowsRanks(n: nat, inv: seq<nat>, s: seq<nat>) {
    |inv| == |s| == n && forall x, y | 0 <= x < n && 0 <= y < n && inv[x] <= inv[y] :: s[x] <= s[y]
  }

  /** Suffixes share an interval in `next` exactly when their successors do in `s`. */
  ghost predicate ShiftsByOne(n: nat, s: seq<nat>, next: seq<nat>) {
    && |s| == |next| == n
    && forall x: nat, y: nat | x < n && y < n :: next[x] == next[y] <==> s[Step(n, x)] == s[Step(n, y)]
  }

  ghost predicate Standing(n: nat, inv: seq<nat>, g: seq<seq<nat>>) {
    && IsPerm(inv, n) && |g| == n + 1
    && (forall m | 0 <= m <= n :: FollowsRanks(n, inv, g[m]))
    && (forall m: nat, m': nat | m' == m + 1 <= n :: ShiftsByOne(n, g[m], g[m']))
  }

  /** Over `m` rounds the intervals shift by `m` positions. */
  lemma {:induction false} ShiftsByMany(n: nat, inv: seq<nat>, g: seq<seq<nat>>, m: nat, x: nat, y: nat)
    requires Standing(n, inv, g) && m <= n && x < n && y < n
    ensures g[m][Sub(n, x, m)] == g[m][Sub(n, y, m)] <==> g[0][x] == g[0][y]
    decreases m
  {
    if m > 0 {
      var k := m - 1;
      ShiftsByMany(n, inv, g, k, x, y);
      assert ShiftsByOne(n, g[k], g[m]);
      assert Step(n, Sub(n, x, m)) == Sub(n, x, k) && Step(n, Sub(n, y, m)) == Sub(n, y, k);
    }
  }

  /** The positions in the interval of `u`. */
  ghost function Class(n: nat, s: seq<nat>, u: nat): (c: set<nat>)
    requires |s| == n && u < n
  {
    set x: nat | x < n && s[x] == s[u]
  }

  /** The interval of the smallest suffix holds everything up to any of its members. */
  lemma FirstIntervalDownward(n: nat, inv: seq<nat>, s: seq<nat>, z: nat, x: nat, y: nat)
    requires FollowsRanks(n, inv, s) && z < n && inv[z] == 0 && y < n
    requires x in Class(n, s, z) && inv[y] <= inv[x]
    ensures y in Class(n, s, z)
  {
    assert s[z] <= s[y] <= s[x];
  }

  /** Two first intervals of the same size are the same set. */
  lemma FirstIntervalsEqual(n: nat, inv: seq<nat>, s: seq<nat>, s': seq<nat>, z: nat)
    requires FollowsRanks(n, inv, s) && FollowsRanks(n, inv, s') && z < n && inv[z] == 0
    requires |Class(n, s, z)| == |Class(n, s', z)|
    ensures Class(n, s, z) == Class(n, s', z)
  {
    var a, b := Class(n, s, z), Class(n, s', z);
    if a <= b {
      SubsetCard(a, b);
    } else {
      var x :| x in a && x !in b;
      forall y | y in b ensures y in a {
        if inv[x] <= inv[y] { FirstIntervalDownward(n, inv, s', z, y, x); }
        else { FirstIntervalDownward(n, inv, s, z, x, y); }
      }
      SubsetCard(b, a);
    }
  }

  ghost function Shifted(n: nat, c: set<nat>, m: nat): (r: set<nat>)
    requires m <= n
  {
    set y: nat | y < n && Add(n, y, m) in c
  }

  lemma ShiftedMember(n: nat, c: set<nat>, m: nat, y: nat)
    requires m <= n && y < n
    ensures Sub(n, y, m) in Shifted(n, c, m) <==> y in c
  {
    assert Add(n, Sub(n, y, m), m) == y;
  }

  lemma {:induction false} ShiftedSize(n: nat, c: set<nat>, m: nat)
    requires m <= n && forall x | x in c :: x < n
    ensures |Shifted(n, c, m)| == |c|
    decreases c
  {
    if c == {} {
      assert Shifted(n, c, m) == {};
    } else {
      var x :| x in c;
      ShiftedSize(n, c - {x}, m);
      assert Add(n, Sub(n, x, m), m) == x;
      assert Shifted(n, c, m) == Shifted(n, c - {x}, m) + {Sub(n, x, m)};
      assert Sub(n, x, m) !in Shifted(n, c - {x}, m);
    }
  }

  lemma ClassShifts(n: nat, inv: seq<nat>, g: seq<seq<nat>>, m: nat, u: nat)
    requires Standing(n, inv, g) && m <= n && u < n && |g[0]| == |g[m]| == n
    ensures Class(n, g[m], Sub(n, u, m)) == Shifted(n, Class(n, g[0], u), m)
  {
    var a, b := Class(n, g[m], Sub(n, u, m)), Shifted(n, Class(n, g[0], u), m);
    forall y | y in a ensures y in b {
      var x := Add(n, y, m);
      ShiftsByMany(n, inv, g, m, x, u);
      assert x in Class(n, g[0], u);
    }
    forall y | y in b ensures y in a { ShiftsByMany(n, inv, g, m, Add(n, y, m), u); }
  }

  /** Moving any member of an interval to the last position gives the same set. */
  lemma SameFromMember(n: nat, inv: seq<nat>, g: seq<seq<nat>>, u: nat, s: nat)
    requires Standing(n, inv, g) && u < n && s < n && inv[n - 1] == 0 && |g[0]| == n
    requires g[0][s] == g[0][u]
    ensures Shifted(n, Class(n, g[0], u), s + 1) == Shifted(n, Class(n, g[0], u), u + 1)
  {
    var c := Class(n, g[0], u);
    assert c == Class(n, g[0], s);
    assert FollowsRanks(n, inv, g[s + 1]) && FollowsRanks(n, inv, g[u + 1]);
    ClassShifts(n, inv, g, s + 1, s);
    ClassShifts(n, inv, g, u + 1, u);
    ShiftedSize(n, c, s + 1);
    ShiftedSize(n, c, u + 1);
    assert Sub(n, s, s + 1) == n - 1 && Sub(n, u, u + 1) == n - 1;
    FirstIntervalsEqual(n, inv, g[s + 1], g[u + 1], n - 1);
  }

  lemma ClassLooksTheSame(n: nat, inv: seq<nat>, g: seq<seq<nat>>, u: nat)
    requires Standing(n, inv, g) && u < n && inv[n - 1] == 0 && |g[0]| == n
    ensures SameFromEverywhere(n, Class(n, g[0], u), Shifted(n, Class(n, g[0], u), u + 1))
  {
    var c := Class(n, g[0], u);
    var q := Shifted(n, c, u + 1);
    forall s: nat, y: nat | s < n && y < n ensures SeesSame(n, c, q, s, y) {
      if s in c {
        SameFromMember(n, inv, g, u, s);
        ShiftedMember(n, c, s + 1, y);
      }
    }
  }

  /** The interval of `u` is its residue class modulo a proper divisor of the length. */
  ghost predicate IsResidueClass(n: nat, s: seq<nat>, u: nat, d: nat) {
    && |s| == n && u < n && 0 < d < n && n % d == 0
    && forall y | 0 <= y < n :: s[y] == s[u] <==> y % d == u % d
  }

  /** An interval of more than one suffix that shifts for a whole turn is a residue class. */
  lemma SharedIntervalIsResidueClass(n: nat, inv: seq<nat>, g: seq<seq<nat>>, u: nat, v: nat) returns (d: nat)
    requires Standing(n, inv, g) && u < n && v < n && u != v && inv[n - 1] == 0 && |g[0]| == n
    requires g[0][u] == g[0][v]
    ensures IsResidueClass(n, g[0], u, d)
  {
    ClassLooksTheSame(n, inv, g, u);
    var c := Class(n, g[0], u);
    var q := Shifted(n, c, u + 1);
    d := LooksTheSameIsResidueClass(n, c, q, u, v);
    ClassMembers(n, g[0], u, c, d);
  }

  lemma ClassMembers(n: nat, s: seq<nat>, u: nat, c: set<nat>, d: nat)
    requires |s| == n && u < n && c == Class(n, s, u) && 0 < d < n && n % d == 0
    requires forall y | 0 <= y < n :: y in c <==> y % d == u % d
    ensures IsResidueClass(n, s, u, d)
  {
    forall y | 0 <= y < n ensures s[y] == s[u] <==> y % d == u % d {
      assert y in c <==> s[y] == s[u];
    }
  }

  /** Then the positions of every residue are neighbours in rank. */
  lemma ResiduesAreNeighbours(n: nat, inv: seq<nat>, g: seq<seq<nat>>, u: nat, d: nat, x: nat, z: nat, y: nat)
    requires Standing(n, inv, g) && |g[0]| == n && IsResidueClass(n, g[0], u, d)
    requires x < n && y < n && z < n && inv[x] <= inv[z] <= inv[y] && x % d == y % d
    ensures z % d == x % d
  {
    var m := ShiftToResidue(n, d, x, u);
    var x', y', z' := Add(n, x, m), Add(n, y, m), Add(n, z, m);
    ShiftsByMany(n, inv, g, m, x', y');
    ShiftsByMany(n, inv, g, m, x', z');
    assert g[0][x'] == g[0][u] && g[0][y'] == g[0][u];
    assert FollowsRanks(n, inv, g[m]);
    assert g[m][x] <= g[m][z] <= g[m][y];
  }
}
