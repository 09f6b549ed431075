/** Positions of a cyclic text: stepping, shifting, and sets that all their own shifts agree on. */
module CyclicShifts {
  import opened Arithmetic

  /** `x - m` on a cycle of `n` positions. */
  function Sub(n: nat, x: nat, m: nat): (r: nat)
    requires x < n && m <= n
    ensures r < n
  {
    if x >= m then x - m else x + n - m
  }

  /** `x + m` on a cycle of `n` positions. */
  function Add(n: nat, x: nat, m: nat): (r: nat)
    requires x < n && m <= n
    ensures r < n && Sub(n, r, m) == x
  {
    if x + m < n then x + m else x + m - n
  }

  function Step(n: nat, x: nat): (r: nat)
    requires x < n
    ensures r < n
  {
    if x + 1 == n then 0 else x + 1
  }

  function Forward(n: nat, x: nat, k: nat): (r: nat)
    requires x < n
    ensures r < n
    decreases k
  {
    if k == 0 then x else Forward(n, Step(n, x), k - 1)
  }

  /** Every position is reached from some position in `k` steps. */
  lemma {:induction false} ForwardOnto(n: nat, z: nat, k: nat) returns (x: nat)
    requires z < n
    ensures x < n && Forward(n, x, k) == z
    decreases k
  {
    if k == 0 {
      x := z;
    } else {
      var y := ForwardOnto(n, z, k - 1);
      x := Sub(n, y, 1);
      assert Step(n, x) == y;
    }
  }

  lemma StepResidue(n: nat, d: nat, x: nat)
    requires d > 0 && n % d == 0 && x < n
    ensures Step(n, x) % d == (x + 1) % d
  {
    if x + 1 == n { DivisionUnique(0, 0, 0, d); }
  }

  lemma StepCancel(n: nat, d: nat, x: nat, y: nat)
    requires d > 0 && n % d == 0 && x < n && y < n && Step(n, x) % d == Step(n, y) % d
    ensures x % d == y % d
  {
    StepResidue(n, d, x);
    StepResidue(n, d, y);
    CongruentCancel(x, y, 1, d);
  }

  lemma {:induction false} ForwardCancel(n: nat, d: nat, x: nat, y: nat, k: nat)
    requires d > 0 && n % d == 0 && x < n && y < n && Forward(n, x, k) % d == Forward(n, y, k) % d
    ensures x % d == y % d
    decreases k
  {
    if k > 0 {
      ForwardCancel(n, d, Step(n, x), Step(n, y), k - 1);
      StepCancel(n, d, x, y);
    }
  }

  /** Wrapping around keeps the residue when the modulus divides the length. */
  lemma WrapCongruent(n: nat, d: nat, x: nat)
    requires d > 0 && n % d == 0
    ensures (x + n) % d == x % d
  {
    assert n == (n / d) * d;
    MultipleAdds(x, n / d, d);
  }

  lemma AddCongruent(n: nat, d: nat, x: nat, m: nat)
    requires d > 0 && n % d == 0 && x < n && m <= n
    ensures Add(n, x, m) % d == (x + m) % d
  {
    if x + m >= n { WrapCongruent(n, d, x + m - n); }
  }

  /** The shift that takes the residue of `x` to that of `u`. */
  lemma ShiftToResidue(n: nat, d: nat, x: nat, u: nat) returns (m: nat)
    requires 0 < d <= n && n % d == 0 && x < n
    ensures m <= n && (x + m) % d == u % d
    ensures forall y | 0 <= y < n :: Add(n, y, m) % d == u % d <==> y % d == x % d
  {
    m := if u % d >= x % d then u % d - x % d else u % d + d - x % d;
    ShiftedTo(x, u, m, d);
    forall y | 0 <= y < n ensures Add(n, y, m) % d == u % d <==> y % d == x % d { ShiftedAlike(n, d, x, y, m); }
  }

  lemma ShiftedTo(x: nat, u: nat, m: nat, d: nat)
    requires d > 0 && m == if u % d >= x % d then u % d - x % d else u % d + d - x % d
    ensures (x + m) % d == u % d
  {
    AddRemainder(x, m, d);
    DivisionUnique(u % d, 0, u % d, d);
    DivisionUnique(u % d + d, 1, u % d, d);
  }

  lemma ShiftedAlike(n: nat, d: nat, x: nat, y: nat, m: nat)
    requires 0 < d && n % d == 0 && y < n && m <= n
    ensures Add(n, y, m) % d == (x + m) % d <==> y % d == x % d
  {
    AddCongruent(n, d, y, m);
    if y % d == x % d { CongruentAdd(y, x, m, d); }
    if (y + m) % d == (x + m) % d { CongruentCancel(y, x, m, d); }
  }

  // ---------------------------------------------------------------- sets closed under differences

  ghost predicate Closed(n: nat, g: set<nat>) {
    && (forall a | a in g :: a < n)
    && 0 in g
    && forall a, b | a in g && b in g :: Sub(n, a, b) in g
  }

  lemma {:induction false} SmallestPositive(g: set<nat>, x: nat) returns (d: nat)
    requires x in g && x > 0
    ensures d in g && 0 < d <= x && forall y | y in g && y > 0 :: y >= d
    decreases x
  {
    if y :| y in g && 0 < y < x {
      d := SmallestPositive(g, y);
    } else {
      d := x;
    }
  }

  lemma {:induction false} MemberIsMultiple(n: nat, g: set<nat>, d: nat, x: nat)
    requires Closed(n, g) && d in g && d > 0 && x in g && forall y | y in g && y > 0 :: y >= d
    ensures x % d == 0
    decreases x
  {
    if x >= d {
      assert Sub(n, x, d) in g;
      MemberIsMultiple(n, g, d, x - d);
      AddDivisor(x - d, d);
    }
  }

  lemma {:induction false} MultipleIsMember(n: nat, g: set<nat>, d: nat, x: nat)
    requires Closed(n, g) && d in g && d > 0 && x < n && x % d == 0
    ensures x in g
    decreases x
  {
    if x >= d {
      AddDivisor(x - d, d);
      MultipleIsMember(n, g, d, x - d);
      assert Sub(n, 0, d) in g;
      assert Sub(n, x - d, n - d) == x;
    } else if x > 0 {
      DivisionUnique(x, 0, x, d);
    }
  }

  /** Every member of `c`, moved to the origin, sees `c` as the same set. */
  ghost predicate SameFromEverywhere(n: nat, c: set<nat>, q: set<nat>) {
    && (forall s | s in c :: s < n)
    && forall s: nat, y: nat | s < n && y < n :: SeesSame(n, c, q, s, y)
  }

  /** If `s` is a member, it is `y`'s membership that its shifted position in `q` tells. */
  ghost predicate SeesSame(n: nat, c: set<nat>, q: set<nat>, s: nat, y: nat)
    requires s < n && y < n
  {
    s in c ==> (y in c <==> Sub(n, y, s + 1) in q)
  }

  ghost function Differences(n: nat, q: set<nat>): (g: set<nat>)
  {
    set a: nat | a < n && Sub(n, a, 1) in q
  }

  lemma DifferencesAgree(n: nat, c: set<nat>, q: set<nat>, s: nat, y: nat)
    requires SameFromEverywhere(n, c, q) && s in c && y < n
    ensures y in c <==> Sub(n, y, s) in Differences(n, q)
  {
    assert SeesSame(n, c, q, s, y);
    assert Sub(n, Sub(n, y, s), 1) == Sub(n, y, s + 1);
  }

  lemma DifferencesClosed(n: nat, c: set<nat>, q: set<nat>, u: nat)
    requires SameFromEverywhere(n, c, q) && u in c
    ensures Closed(n, Differences(n, q))
  {
    var g := Differences(n, q);
    DifferencesAgree(n, c, q, u, u);
    forall a, b | a in g && b in g ensures Sub(n, a, b) in g {
      var ya, yb := Add(n, u, a), Add(n, u, b);
      assert Sub(n, ya, u) == a && Sub(n, yb, u) == b;
      DifferencesAgree(n, c, q, u, ya);
      DifferencesAgree(n, c, q, u, yb);
      DifferencesAgree(n, c, q, yb, ya);
      assert Sub(n, ya, yb) == Sub(n, a, b);
    }
  }

  lemma DifferenceResidue(n: nat, d: nat, y: nat, u: nat)
    requires d > 0 && n % d == 0 && y < n && u < n
    ensures Sub(n, y, u) % d == 0 <==> y % d == u % d
  {
    var z := Sub(n, y, u);
    WrapCongruent(n, d, y);
    assert (z + u) % d == y % d;
    DivisionUnique(0, 0, 0, d);
    if z % d == 0 { CongruentAdd(z, 0, u, d); }
    if y % d == u % d { CongruentCancel(z, 0, u, d); }
  }

  /** A set of at least two positions that looks the same from each of its members is a residue class
      modulo a proper divisor of the cycle length. */
  lemma LooksTheSameIsResidueClass(n: nat, c: set<nat>, q: set<nat>, u: nat, v: nat) returns (d: nat)
    requires SameFromEverywhere(n, c, q) && u in c && v in c && u != v
    ensures 0 < d < n && n % d == 0
    ensures forall y | 0 <= y < n :: y in c <==> y % d == u % d
  {
    var g := Differences(n, q);
    DifferencesClosed(n, c, q, u);
    DifferencesAgree(n, c, q, u, v);
    d := SmallestPositive(g, Sub(n, v, u));
    assert Sub(n, 0, d) in g;
    MemberIsMultiple(n, g, d, n - d);
    AddDivisor(n - d, d);
    forall y | 0 <= y < n ensures y in c <==> y % d == u % d {
      var z := Sub(n, y, u);
      DifferencesAgree(n, c, q, u, y);
      DifferenceResidue(n, d, y, u);
      if z in g { MemberIsMultiple(n, g, d, z); }
      if z % d == 0 { MultipleIsMember(n, g, d, z); }
    }
  }
}
