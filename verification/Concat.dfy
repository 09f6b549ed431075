/**
 The data exchange of Concat (thrill/api/concat.hpp:255-312).

 Every worker holds a piece of every input.  `starts[j]` is the global rank of the first item of piece `j`,
 where pieces are counted input by input and, within an input, worker by worker.  The split limits divide
 the total exactly and round down.
 */
module Concat {
  import opened Arithmetic

  function Flatten<T>(s: seq<seq<T>>): seq<T> {
    if s == [] then [] else Flatten(s[..|s| - 1]) + s[|s| - 1]
  }

  /** Where worker `p`'s share of the result starts. */
  function Limit(total: nat, workers: nat, p: nat): nat
    requires workers > 0
  {
    p * total / workers
  }

  function Offset(limit: nat, start: nat, size: nat): (r: nat)
    ensures r <= size
  {
    if limit < start then 0 else if limit - start < size then limit - start else size
  }

  /** The offset vector of one piece: which part of it goes to which worker. */
  method Offsets(total: nat, workers: nat, start: nat, size: nat) returns (offsets: seq<nat>)
    requires workers > 0 && start + size <= total
    ensures |offsets| == workers + 1
    ensures forall p: nat | p <= workers :: offsets[p] == Offset(Limit(total, workers, p), start, size)
    ensures offsets[0] == 0 && offsets[workers] == size
    ensures forall p: nat, q: nat | p <= q <= workers :: offsets[p] <= offsets[q]
  {
    offsets := seq(workers + 1, _ => 0);
    for p := 0 to workers
      invariant |offsets| == workers + 1
      invariant forall k: nat | k < p :: offsets[k] == Offset(Limit(total, workers, k), start, size)
      invariant forall k: nat | p <= k <= workers :: offsets[k] == 0
    {
      var limit := Limit(total, workers, p);
      if limit < start { continue; }
      offsets := offsets[p := if limit - start < size then limit - start else size];
    }
    offsets := offsets[workers := size];
    LimitEnds(total, workers);
    forall p: nat, q: nat | p <= q <= workers ensures offsets[p] <= offsets[q] { LimitsAscend(total, workers, p, q); }
  }

  /** The limits divide the total evenly, rounded down. */
  lemma LimitIsFloor(total: nat, workers: nat, p: nat)
    requires workers > 0
    ensures Limit(total, workers, p) * workers <= p * total < (Limit(total, workers, p) + 1) * workers
  {
    QuotientFits(p * total, workers);
  }

  /** Two neighbouring limits are an even share apart, or one item more. */
  lemma LimitGap(total: nat, workers: nat, p: nat, p': nat)
    requires workers > 0 && p' == p + 1
    ensures var gap := Limit(total, workers, p') - Limit(total, workers, p);
            total / workers <= gap <= total / workers + 1
  {
    Distribute(p, 1, total);
    QuotientGap(total, workers, p * total, p' * total,
                total / workers, Limit(total, workers, p), Limit(total, workers, p'));
  }

  lemma QuotientGap(total: nat, d: nat, x: nat, y: nat, q: nat, a: nat, b: nat)
    requires d > 0 && y == x + total && q == total / d && a == x / d && b == y / d
    ensures q <= b - a <= q + 1
  {
    FloorFits(x, d, a);
    FloorFits(y, d, b);
    FloorFits(total, d, q);
    GapBounds(a, b, x, total, q, d);
  }

  lemma FloorFits(x: nat, d: nat, q: nat)
    requires d > 0 && q == x / d
    ensures q * d <= x < (q + 1) * d
  {
    QuotientFits(x, d);
  }

  lemma GapBounds(a: nat, b: nat, x: nat, total: nat, q: nat, d: nat)
    requires d > 0 && a * d <= x < (a + 1) * d && b * d <= x + total < (b + 1) * d && q * d <= total < (q + 1) * d
    ensures q <= b - a <= q + 1
  {
    if a + q > b {
      ProductMonotone(b + 1, a + q, d);
      Distribute(a, q, d);
    }
    if b > a + q + 1 {
      ProductMonotone(a + q + 2, b, d);
      Distribute(a + 1, q + 1, d);
    }
  }

  lemma LimitEnds(total: nat, workers: nat)
    requires workers > 0
    ensures Limit(total, workers, 0) == 0 && Limit(total, workers, workers) == total
  {
    DivisionUnique(0, 0, 0, workers);
    assert workers * total == total * workers;
    DivisionUnique(workers * total, total, 0, workers);
  }

  lemma LimitsAscend(total: nat, workers: nat, p: nat, q: nat)
    requires workers > 0 && p <= q
    ensures Limit(total, workers, p) <= Limit(total, workers, q)
  {
    ProductMonotone(p, q, total);
    assert p * total == (p * total / workers) * workers + p * total % workers;
    QuotientAtLeast(q * total, workers, p * total / workers);
  }

  // ---------------------------------------------------------------- what a worker receives

  /** `starts` holds the global rank of every piece. */
  ghost predicate GlobalRanks<T>(pieces: seq<seq<T>>, starts: seq<nat>) {
    |starts| == |pieces| && forall j: nat | j < |pieces| :: starts[j] == |Flatten(pieces[..j])|
  }

  /** The items between two limits, piece by piece: what a worker reads from its streams. */
  ghost function Received<T>(pieces: seq<seq<T>>, starts: seq<nat>, from: nat, to: nat): seq<T>
    requires |starts| == |pieces| && from <= to
  {
    if pieces == [] then [] else
      var j := |pieces| - 1;
      Received(pieces[..j], starts[..j], from, to)
      + pieces[j][Offset(from, starts[j], |pieces[j]|)..Offset(to, starts[j], |pieces[j]|)]
  }

  ghost function Clip(x: nat, size: nat): nat { if x < size then x else size }

  /** A worker receives exactly the items whose global rank lies between its limits, in order. */
  lemma {:induction false} ReceivedIsSlice<T>(pieces: seq<seq<T>>, starts: seq<nat>, from: nat, to: nat)
    requires GlobalRanks(pieces, starts) && from <= to
    ensures var all := Flatten(pieces); Received(pieces, starts, from, to) == all[Clip(from, |all|)..Clip(to, |all|)]
  {
    if pieces != [] {
      var j := |pieces| - 1;
      var front := pieces[..j];
      forall i: nat | i < j ensures starts[..j][i] == |Flatten(front[..i])| { assert front[..i] == pieces[..i]; }
      ReceivedIsSlice(front, starts[..j], from, to);
      SliceOfAppended(Flatten(front), pieces[j], from, to);
    }
  }

  lemma SliceOfAppended<T>(a: seq<T>, b: seq<T>, from: nat, to: nat)
    requires from <= to
    ensures (a + b)[Clip(from, |a + b|)..Clip(to, |a + b|)]
         == a[Clip(from, |a|)..Clip(to, |a|)] + b[Offset(from, |a|, |b|)..Offset(to, |a|, |b|)]
  {
    SliceOfBoth(a, b, Clip(from, |a + b|), Clip(to, |a + b|));
  }

  lemma SliceOfBoth<T>(a: seq<T>, b: seq<T>, x: nat, y: nat)
    requires x <= y <= |a + b|
    ensures (a + b)[x..y]
         == a[Clip(x, |a|)..Clip(y, |a|)] + b[if x < |a| then 0 else x - |a|..if y < |a| then 0 else y - |a|]
  {
  }

  /** The shares of the first `p` workers. */
  ghost function Shares<T>(pieces: seq<seq<T>>, starts: seq<nat>, total: nat, workers: nat, p: nat): seq<T>
    requires workers > 0 && |starts| == |pieces|
  {
    if p == 0 then [] else
      LimitsAscend(total, workers, p - 1, p);
      Shares(pieces, starts, total, workers, p - 1)
      + Received(pieces, starts, Limit(total, workers, p - 1), Limit(total, workers, p))
  }

  /** The next worker's share continues the items in front of its start. */
  lemma NextShare<T>(pieces: seq<seq<T>>, starts: seq<nat>, total: nat, workers: nat, p: nat, p': nat)
    requires workers > 0 && GlobalRanks(pieces, starts) && total == |Flatten(pieces)| && p' == p + 1 <= workers
    requires Limit(total, workers, p) <= total && Limit(total, workers, p') <= total
    ensures Limit(total, workers, p) <= Limit(total, workers, p')
    ensures Received(pieces, starts, Limit(total, workers, p), Limit(total, workers, p'))
         == Flatten(pieces)[Limit(total, workers, p)..Limit(total, workers, p')]
  {
    LimitsAscend(total, workers, p, p');
    ReceivedIsSlice(pieces, starts, Limit(total, workers, p), Limit(total, workers, p'));
  }

  /** Every worker receives an even share of all items, or one item more. */
  lemma SharesAreEven<T>(pieces: seq<seq<T>>, starts: seq<nat>, total: nat, workers: nat, p: nat, p': nat)
    requires workers > 0 && GlobalRanks(pieces, starts) && total == |Flatten(pieces)| && p' == p + 1 <= workers
    ensures Limit(total, workers, p) <= Limit(total, workers, p')
    ensures var share := Received(pieces, starts, Limit(total, workers, p), Limit(total, workers, p'));
            total / workers <= |share| <= total / workers + 1
  {
    LimitEnds(total, workers);
    LimitsAscend(total, workers, p, workers);
    LimitsAscend(total, workers, p', workers);
    NextShare(pieces, starts, total, workers, p, p');
    LimitGap(total, workers, p, p');
  }

  /** Reading the workers in order yields the concatenation of the inputs, however the pieces were spread. */
  lemma {:induction false} SharesAreConcatenation<T>(pieces: seq<seq<T>>, starts: seq<nat>, total: nat, workers: nat,
                                                     p: nat)
    requires workers > 0 && GlobalRanks(pieces, starts) && total == |Flatten(pieces)| && p <= workers
    ensures Limit(total, workers, p) <= total
    ensures Shares(pieces, starts, total, workers, p) == Flatten(pieces)[..Limit(total, workers, p)]
    ensures p == workers ==> Shares(pieces, starts, total, workers, p) == Flatten(pieces)
    decreases p
  {
    LimitEnds(total, workers);
    LimitsAscend(total, workers, p, workers);
    if p > 0 {
      SharesAreConcatenation(pieces, starts, total, workers, p - 1);
      NextShare(pieces, starts, total, workers, p - 1, p);
    }
  }
}
