/** The few facts about products, quotients and remainders by a variable that the proofs rely on. */
module Arithmetic {

  lemma ProductMonotone(a: nat, b: nat, d: nat)
    requires a <= b
    ensures a * d <= b * d
  {
  }

  /** Quotient and remainder are determined by the division identity. */
  lemma DivisionUnique(x: nat, q: nat, r: nat, d: nat)
    requires d > 0 && r < d && x == q * d + r
    ensures x / d == q && x % d == r
  {
    var q' := x / d;
    assert x == q' * d + x % d;
    if q' + 1 <= q { ProductMonotone(q' + 1, q, d); }
    if q + 1 <= q' { ProductMonotone(q + 1, q', d); }
  }

  /** The quotient is the last multiple that fits. */
  lemma QuotientFits(x: nat, d: nat)
    requires d > 0
    ensures (x / d) * d <= x < (x / d + 1) * d
  {
    assert x == (x / d) * d + x % d;
    Distribute(x / d, 1, d);
  }

  lemma QuotientAtLeast(x: nat, d: nat, q: nat)
    requires d > 0 && q * d <= x
    ensures x / d >= q
  {
    assert x < (x / d + 1) * d;
    if x / d + 1 <= q { ProductMonotone(x / d + 1, q, d); }
  }

  lemma AddDivisor(i: nat, d: nat)
    requires d > 0
    ensures (i + d) % d == i % d && (i + d) / d == i / d + 1
  {
    assert i == (i / d) * d + i % d;
    DivisionUnique(i + d, i / d + 1, i % d, d);
  }

  /** Numbers with the same remainder that differ, differ by at least the divisor. */
  lemma SameRemainderGap(i: nat, x: nat, d: nat)
    requires d > 0 && x % d == i % d && i < x
    ensures x >= i + d
  {
    var a, b := i / d, x / d;
    assert i == a * d + i % d && x == b * d + x % d;
    if b <= a { ProductMonotone(b, a, d); }
    ProductMonotone(a + 1, b, d);
  }

  /** Adding the same number keeps numbers congruent. */
  lemma CongruentAdd(a: nat, b: nat, x: nat, d: nat)
    requires d > 0 && a % d == b % d
    ensures (a + x) % d == (b + x) % d
  {
    AddRemainder(a, x, d);
    AddRemainder(b, x, d);
  }

  lemma AddRemainder(a: nat, x: nat, d: nat)
    requires d > 0
    ensures (a + x) % d == (a % d + x) % d
  {
    var q, s := (a % d + x) / d, (a % d + x) % d;
    assert a == (a / d) * d + a % d && a % d + x == q * d + s;
    Distribute(a / d, q, d);
    DivisionUnique(a + x, a / d + q, s, d);
  }

  /** Congruence can be cancelled. */
  lemma CongruentCancel(a: nat, b: nat, x: nat, d: nat)
    requires d > 0 && (a + x) % d == (b + x) % d
    ensures a % d == b % d
  {
    var y := d - x % d;
    assert x == (x / d) * d + x % d;
    Distribute(x / d, 1, d);
    CongruentAdd(a + x, b + x, y, d);
    MultipleAdds(a, x / d + 1, d);
    MultipleAdds(b, x / d + 1, d);
    assert a + x + y == a + (x / d + 1) * d && b + x + y == b + (x / d + 1) * d;
  }

  lemma MultipleAdds(a: nat, q: nat, d: nat)
    requires d > 0
    ensures (a + q * d) % d == a % d
  {
    assert a == (a / d) * d + a % d;
    Distribute(a / d, q, d);
    DivisionUnique(a + q * d, a / d + q, a % d, d);
  }

  lemma Distribute(a: nat, b: nat, d: nat)
    ensures (a + b) * d == a * d + b * d
  {
  }
}
