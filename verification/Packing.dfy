/**
 Packing several characters into one integer (examples/suffix_sorting/prefix_doubling.cpp:198-258):
 the alphabet map, the number of characters that fit, and the windows of packed characters.  Packed
 integers order exactly like the windows of characters they hold, with the end of the text lowest.
 */
module Packing {
  import opened Arithmetic
  import opened Lists
  import opened Suffixes

  // ---------------------------------------------------------------- powers, logarithms, bits

  function Pow2(k: nat): (r: nat)
    ensures r >= 1
  {
    if k == 0 then 1 else 2 * Pow2(k - 1)
  }

  lemma {:induction false} Pow2Monotone(a: nat, b: nat)
    requires a < b
    ensures Pow2(a) < Pow2(b)
    decreases b
  {
    if a < b - 1 { Pow2Monotone(a, b - 1); }
  }

  lemma {:induction false} Pow2Add(a: nat, b: nat)
    ensures Pow2(a + b) == Pow2(a) * Pow2(b)
    decreases b
  {
    if b > 0 {
      Pow2Add(a, b - 1);
      Product3(2, Pow2(a), Pow2(b - 1));
    }
  }

  lemma Product3(x: int, y: int, z: int)
    ensures x * (y * z) == y * (x * z)
  {
  }

  function Log2Floor(i: nat): (r: nat)
    ensures i >= 1 ==> Pow2(r) <= i < 2 * Pow2(r)
  {
    if i <= 1 then 0 else 1 + Log2Floor(i / 2)
  }

  function Log2Ceil(i: nat): (r: nat)
    ensures i >= 1 ==> i <= Pow2(r)
    ensures i >= 2 ==> r >= 1 && Pow2(r - 1) < i
  {
    if i <= 1 then 0 else Log2Floor(i - 1) + 1
  }

  /** Bitwise or. */
  function BitOr(x: nat, y: nat): nat
    decreases x
  {
    if x == 0 then y else if y == 0 then x
    else 2 * BitOr(x / 2, y / 2) + (if x % 2 == 1 || y % 2 == 1 then 1 else 0)
  }

  function ShiftLeft(x: nat, bits: nat): nat { x * Pow2(bits) }

  /** Or-ing into the zero bits left by a shift adds. */
  lemma {:induction false} OrIntoShifted(x: nat, b: nat, y: nat)
    requires y < Pow2(b)
    ensures BitOr(x * Pow2(b), y) == x * Pow2(b) + y
    decreases b
  {
    if b == 0 {
      assert y == 0;
    } else {
      var h := x * Pow2(b - 1);
      Product3(x, 2, Pow2(b - 1));
      assert x * Pow2(b) == 2 * h;
      OrIntoShifted(x, b - 1, y / 2);
    }
  }

  // ---------------------------------------------------------------- packed windows

  ghost predicate Codes(c: seq<nat>, bits: nat) {
    forall k | 0 <= k < |c| :: c[k] < Pow2(bits)
  }

  /** The number whose base-2^bits digits are `c`. */
  ghost function Packed(c: seq<nat>, bits: nat): nat
  {
    if c == [] then 0 else Packed(c[..|c| - 1], bits) * Pow2(bits) + c[|c| - 1]
  }

  lemma {:induction false} PackedFits(c: seq<nat>, bits: nat)
    requires Codes(c, bits)
    ensures Packed(c, bits) < Pow2(bits * |c|)
    decreases |c|
  {
    if c != [] {
      var c' := c[..|c| - 1];
      PackedFits(c', bits);
      Pow2Add(bits * |c'|, bits);
      assert bits * |c'| + bits == bits * |c|;
      DigitFits(Packed(c', bits), c[|c| - 1], Pow2(bits * |c'|), Pow2(bits));
    }
  }

  lemma DigitFits(high: nat, low: nat, bound: nat, base: nat)
    requires high < bound && low < base
    ensures high * base + low < bound * base
  {
    assert (high + 1) * base <= bound * base;
  }

  lemma DigitOrder(a: nat, x: nat, b: nat, y: nat, base: nat)
    requires x < base && y < base
    ensures a < b ==> a * base + x < b * base + y
  {
    if a < b { assert (a + 1) * base <= b * base; }
  }

  /** Packed windows of one length are equal only for equal windows, and order by the first difference. */
  lemma {:induction false} PackedOrder(a: seq<nat>, b: seq<nat>, bits: nat)
    requires |a| == |b| && Codes(a, bits) && Codes(b, bits)
    ensures Packed(a, bits) == Packed(b, bits) <==> a == b
    ensures forall d | 0 <= d < |a| && a[..d] == b[..d] && a[d] != b[d] ::
              Packed(a, bits) < Packed(b, bits) <==> a[d] < b[d]
  {
    PackedEqual(a, b, bits);
    forall d | 0 <= d < |a| && a[..d] == b[..d] && a[d] != b[d]
      ensures Packed(a, bits) < Packed(b, bits) <==> a[d] < b[d] {
      PackedLess(a, b, bits, d);
    }
  }

  lemma LastDigit(a: seq<nat>, b: seq<nat>, bits: nat)
    requires |a| == |b| > 0 && Codes(a, bits) && Codes(b, bits)
    ensures var n := |a| - 1; var x, y := Packed(a[..n], bits), Packed(b[..n], bits);
            && (Packed(a, bits) == Packed(b, bits) <==> x == y && a[n] == b[n])
            && (Packed(a, bits) < Packed(b, bits) <==> x < y || (x == y && a[n] < b[n]))
  {
    var n := |a| - 1;
    DigitOrder(Packed(a[..n], bits), a[n], Packed(b[..n], bits), b[n], Pow2(bits));
    DigitOrder(Packed(b[..n], bits), b[n], Packed(a[..n], bits), a[n], Pow2(bits));
  }

  lemma {:induction false} PackedEqual(a: seq<nat>, b: seq<nat>, bits: nat)
    requires |a| == |b| && Codes(a, bits) && Codes(b, bits)
    ensures Packed(a, bits) == Packed(b, bits) <==> a == b
    decreases |a|
  {
    if a != [] {
      var n := |a| - 1;
      PackedEqual(a[..n], b[..n], bits);
      LastDigit(a, b, bits);
      assert a == a[..n] + [a[n]] && b == b[..n] + [b[n]];
    }
  }

  lemma {:induction false} PackedLess(a: seq<nat>, b: seq<nat>, bits: nat, d: nat)
    requires |a| == |b| && Codes(a, bits) && Codes(b, bits) && d < |a| && a[..d] == b[..d] && a[d] != b[d]
    ensures Packed(a, bits) < Packed(b, bits) <==> a[d] < b[d]
    decreases |a|
  {
    var n := |a| - 1;
    LastDigit(a, b, bits);
    PackedEqual(a[..n], b[..n], bits);
    if d < n {
      assert a[..n][..d] == a[..d] && b[..n][..d] == b[..d];
      assert a[..n][d] != b[..n][d];
      PackedLess(a[..n], b[..n], bits, d);
    }
  }

  function Zeros(m: nat): (r: seq<nat>)
    ensures |r| == m
  {
    seq(m, k => 0)
  }

  /** Shifting a packed window left appends zero characters. */
  lemma {:induction false} ShiftAppendsZeros(c: seq<nat>, m: nat, bits: nat)
    ensures Packed(c + Zeros(m), bits) == Packed(c, bits) * Pow2(m * bits)
    decreases m
  {
    if m == 0 {
      assert c + Zeros(0) == c;
    } else {
      ShiftAppendsZeros(c, m - 1, bits);
      assert (c + Zeros(m))[..|c| + m - 1] == c + Zeros(m - 1);
      ShiftOnce(Packed(c, bits), m - 1, m, bits);
    }
  }

  lemma ShiftOnce(x: nat, m: nat, m': nat, bits: nat)
    requires m' == m + 1
    ensures x * Pow2(m * bits) * Pow2(bits) == x * Pow2(m' * bits)
  {
    Distribute(m, 1, bits);
    Pow2Add(m * bits, bits);
    Associate(x, Pow2(m * bits), Pow2(bits));
  }

  lemma Associate(x: int, y: int, z: int)
    ensures x * y * z == x * (y * z)
  {
  }

  lemma PackNext(result: nat, codes: seq<nat>, from: nat, j: nat, bits: nat)
    requires from <= j < |codes| && result == Packed(codes[from..j], bits)
    ensures Packed(codes[from..j + 1], bits) == result * Pow2(bits) + codes[j]
  {
    assert codes[from..j + 1][..j - from] == codes[from..j];
  }

  lemma OneCode(codes: seq<nat>, from: nat, bits: nat)
    requires from < |codes|
    ensures Packed(codes[from..from + 1], bits) == codes[from]
  {
    assert codes[from..from + 1] == [codes[from]];
    assert codes[from..from + 1][..0] == [];
  }

  lemma OrNext(result: nat, codes: seq<nat>, from: nat, j: nat, bits: nat)
    requires from <= j < |codes| && Codes(codes, bits) && result == Packed(codes[from..j], bits)
    ensures BitOr(ShiftLeft(result, bits), codes[j]) == Packed(codes[from..j + 1], bits)
  {
    PackNext(result, codes, from, j, bits);
    OrIntoShifted(result, bits, codes[j]);
  }

  /** The loop that shifts the codes of a window together, starting at its character `from`. */
  method PackWindow(codes: seq<nat>, from: nat, bits: nat) returns (result: nat)
    requires from < |codes| && Codes(codes, bits)
    ensures result == Packed(codes[from..], bits)
  {
    result := codes[from];
    OneCode(codes, from, bits);
    for j := from + 1 to |codes|
      invariant result == Packed(codes[from..j], bits)
    {
      OrNext(result, codes, from, j, bits);
      result := BitOr(ShiftLeft(result, bits), codes[j]);
    }
    assert codes[from..|codes|] == codes[from..];
  }

  ghost predicate HoldsWindows(r: seq<IndexRank>, codes: Text, bits: nat, k: nat) {
    forall i | 0 <= i < |r| :: r[i] == IndexRank(i, Packed(Window(codes, i, k), bits))
  }

  /** Every packed integer fits into an index of `indexBits` bits. */
  ghost predicate FitsIndex(r: seq<IndexRank>, indexBits: nat) {
    forall x | x in r :: x.rank < Pow2(indexBits)
  }

  lemma WindowCodes(codes: Text, i: nat, k: nat, bits: nat)
    requires Codes(codes, bits)
    ensures Codes(Window(codes, i, k), bits)
  {
    WindowAt(codes, i, k);
  }

  lemma WindowFits(codes: Text, i: nat, k: nat, bits: nat, indexBits: nat)
    requires Codes(codes, bits) && k * bits <= indexBits
    ensures Packed(Window(codes, i, k), bits) < Pow2(indexBits)
  {
    var w := Window(codes, i, k);
    WindowCodes(codes, i, k, bits);
    PackedFits(w, bits);
    assert bits * k == k * bits;
    if k * bits < indexBits { Pow2Monotone(k * bits, indexBits); }
  }

  lemma WindowsFit(r: seq<IndexRank>, codes: Text, bits: nat, k: nat, indexBits: nat)
    requires HoldsWindows(r, codes, bits, k) && Codes(codes, bits) && k * bits <= indexBits
    ensures FitsIndex(r, indexBits)
  {
    forall x | x in r ensures x.rank < Pow2(indexBits) {
      var i := IndexIn(x, r);
      WindowFits(codes, i, k, bits, indexBits);
    }
  }

  /** The FlatWindow over `codes` that emits one packed window per position, the shorter ones at the
      end of the text along with the last full window.  Nothing is emitted for a text of fewer than
      `k` characters.  Every packed integer fits into an index. */
  method PackWindows(codes: Text, bits: nat, k: nat, ghost indexBits: nat) returns (r: seq<IndexRank>)
    requires k >= 1 && Codes(codes, bits) && k * bits <= indexBits
    ensures FitsIndex(r, indexBits)
    ensures |codes| < k ==> r == []
    ensures |codes| >= k ==> |r| == |codes|
    ensures HoldsWindows(r, codes, bits, k)
  {
    r := [];
    if |codes| < k { return; }
    for index := 0 to |codes| - k + 1
      invariant |r| == if index <= |codes| - k then index else |codes|
      invariant HoldsWindows(r, codes, bits, k)
    {
      var rb := codes[index..index + k];
      var result := PackWindow(rb, 0, bits);
      WindowAt(codes, index, k);
      assert rb[0..] == Window(codes, index, k);
      r := r + [IndexRank(index, result)];
      if index + k == |codes| {
        r := PackTail(codes, rb, index, r, bits, k);
      }
    }
    WindowsFit(r, codes, bits, k, indexBits);
  }

  /** The shorter windows emitted along with the last full one. */
  method PackTail(codes: Text, rb: seq<nat>, index: nat, r0: seq<IndexRank>, bits: nat, k: nat)
    returns (r: seq<IndexRank>)
    requires k >= 1 && index + k == |codes| && Codes(codes, bits) && rb == codes[index..]
    requires |r0| == index + 1 && HoldsWindows(r0, codes, bits, k)
    ensures |r| == |codes| && HoldsWindows(r, codes, bits, k)
  {
    r := r0;
    for i := 1 to k
      invariant |r| == index + i && HoldsWindows(r, codes, bits, k)
    {
      var result := PackWindow(rb, i, bits);
      ShiftAppendsZeros(rb[i..], i, bits);
      WindowAt(codes, index + i, k);
      assert rb[i..] + Zeros(i) == Window(codes, index + i, k);
      r := r + [IndexRank(index + i, result * Pow2(i * bits))];
    }
  }

  // ---------------------------------------------------------------- the alphabet

  /** The size of the alphabet of `t`, with zero kept reserved. */
  ghost function AlphabetSize(t: Text): nat { 1 + |Items(t)| }

  /** How many characters fit into an index of `indexBits` bits. */
  ghost function KFitting(t: Text, indexBits: nat): nat
    requires |t| > 0
  {
    AlphabetHasTwo(t);
    indexBits / Log2Ceil(AlphabetSize(t))
  }

  lemma AlphabetHasTwo(t: Text)
    requires |t| > 0
    ensures AlphabetSize(t) >= 2
  {
    assert t[0] in Items(t);
    SubsetCard({t[0]}, Items(t));
  }

  /** As many characters as fit and no more, in the fewest bits that tell all codes apart; the iteration counter starts
      at the floor of their logarithm. */
  lemma FittingIsExact(t: Text, indexBits: nat)
    requires |t| > 0
    ensures var bits := Log2Ceil(AlphabetSize(t)); bits >= 1 && Pow2(bits - 1) < AlphabetSize(t) <= Pow2(bits)
    ensures KFitting(t, indexBits) * Log2Ceil(AlphabetSize(t)) <= indexBits
    ensures (KFitting(t, indexBits) + 1) * Log2Ceil(AlphabetSize(t)) > indexBits
    ensures KFitting(t, indexBits) >= 1 ==>
              Pow2(Log2Floor(KFitting(t, indexBits))) <= KFitting(t, indexBits)
              < 2 * Pow2(Log2Floor(KFitting(t, indexBits)))
  {
    AlphabetHasTwo(t);
    QuotientFits(indexBits, Log2Ceil(AlphabetSize(t)));
  }

  /** The names of the characters: increasing from 1 over the characters that occur. */
  ghost predicate AlphabetMap(t: Text, alpha: seq<nat>) {
    && |alpha| == 256
    && (forall c | 0 <= c < 256 :: alpha[c] != 0 <==> c in t)
    && (forall c, d | 0 <= c < d < 256 && alpha[c] != 0 && alpha[d] != 0 :: alpha[c] < alpha[d])
    && (forall c | 0 <= c < 256 :: alpha[c] < AlphabetSize(t))
  }

  /** Makes the histogram, then replaces each nonzero count by the next name. */
  method BuildAlphabet(t: Text) returns (alphaMap: array<nat>, alphabetSize: nat)
    requires forall k | 0 <= k < |t| :: t[k] < 256
    ensures fresh(alphaMap) && AlphabetMap(t, alphaMap[..]) && alphabetSize == AlphabetSize(t) <= 257
  {
    alphaMap := new nat[256](i => 0);
    CountCharacters(t, alphaMap);
    alphabetSize := NameCharacters(Items(t), alphaMap);
    assert UsedBelow(Items(t), 256) == Items(t);
  }

  method CountCharacters(t: Text, alphaMap: array<nat>)
    requires alphaMap.Length == 256 && forall c | 0 <= c < 256 :: alphaMap[c] == 0
    requires forall k | 0 <= k < |t| :: t[k] < 256
    modifies alphaMap
    ensures forall c | 0 <= c < 256 :: alphaMap[c] == multiset(t)[c]
  {
    for k := 0 to |t|
      invariant forall c | 0 <= c < 256 :: alphaMap[c] == multiset(t[..k])[c]
    {
      assert t[..k + 1] == t[..k] + [t[k]];
      alphaMap[t[k]] := alphaMap[t[k]] + 1;
    }
    assert t[..|t|] == t;
  }

  ghost function UsedBelow(used: set<nat>, i: nat): set<nat> { set c: nat | c < i && c in used }

  lemma UsedNext(used: set<nat>, i: nat, i': nat)
    requires i' == i + 1
    ensures |UsedBelow(used, i')| == |UsedBelow(used, i)| + (if i in used then 1 else 0)
  {
    assert UsedBelow(used, i') == UsedBelow(used, i) + (if i in used then {i} else {});
  }

  method NameCharacters(ghost used: set<nat>, alphaMap: array<nat>) returns (alphabetSize: nat)
    requires alphaMap.Length == 256 && forall c: nat | c < 256 :: alphaMap[c] != 0 <==> c in used
    modifies alphaMap
    ensures alphabetSize == 1 + |UsedBelow(used, 256)| <= 257
    ensures forall c: nat | c < 256 :: (alphaMap[c] != 0 <==> c in used) && alphaMap[c] < alphabetSize
    ensures forall c, d | 0 <= c < d < 256 && alphaMap[c] != 0 && alphaMap[d] != 0 :: alphaMap[c] < alphaMap[d]
  {
    alphabetSize := 1;
    for i := 0 to 256
      invariant alphabetSize == 1 + |UsedBelow(used, i)| <= 1 + i
      invariant forall c: nat | c < 256 :: alphaMap[c] != 0 <==> c in used
      invariant forall c: nat | c < i :: alphaMap[c] < alphabetSize
      invariant forall c, d | 0 <= c < d < i && alphaMap[c] != 0 && alphaMap[d] != 0 :: alphaMap[c] < alphaMap[d]
    {
      UsedNext(used, i, i + 1);
      if alphaMap[i] != 0 {
        alphaMap[i] := alphabetSize;
        alphabetSize := alphabetSize + 1;
      }
    }
  }

  // ---------------------------------------------------------------- what packed ranks mean

  /** The text with every character replaced by its name. */
  ghost predicate Renamed(t: Text, alpha: seq<nat>, codes: Text) {
    AlphabetMap(t, alpha) && |codes| == |t| &&
    forall k | 0 <= k < |t| :: t[k] < 256 && codes[k] == alpha[t[k]]
  }

  lemma RenamedAt(t: Text, alpha: seq<nat>, codes: Text, i: nat, j: nat)
    requires Renamed(t, alpha, codes) && i < |t| && j < |t|
    ensures codes[i] >= 1
    ensures codes[i] == codes[j] <==> t[i] == t[j]
    ensures codes[i] < codes[j] <==> t[i] < t[j]
  {
    assert t[i] in t && t[j] in t;
    assert t[i] < t[j] ==> alpha[t[i]] < alpha[t[j]];
    assert t[j] < t[i] ==> alpha[t[j]] < alpha[t[i]];
  }

  lemma {:induction false} RenamedOrder(t: Text, alpha: seq<nat>, codes: Text, i: nat, j: nat)
    requires Renamed(t, alpha, codes)
    ensures SufLess(codes, i, j) <==> SufLess(t, i, j)
    decreases |t| - j
  {
    if j < |t| && i < |t| {
      RenamedAt(t, alpha, codes, i, j);
      RenamedOrder(t, alpha, codes, i + 1, j + 1);
    }
  }

  /** Names are positive, so renamed windows agree only where neither runs past the end. */
  lemma {:induction false} RenamedAgree(t: Text, alpha: seq<nat>, codes: Text, i: nat, j: nat, k: nat)
    requires Renamed(t, alpha, codes) && i < |t| && j < |t| && i != j
    ensures Agree(codes, i, j, k) <==> Agree(t, i, j, k) && i + k <= |t| && j + k <= |t|
    decreases k
  {
    if k > 0 {
      RenamedAt(t, alpha, codes, i, j);
      if i + 1 < |t| && j + 1 < |t| {
        RenamedAgree(t, alpha, codes, i + 1, j + 1, k - 1);
      } else if k > 1 {
        if i + 1 < |t| { RenamedAt(t, alpha, codes, i + 1, i + 1); }
        if j + 1 < |t| { RenamedAt(t, alpha, codes, j + 1, j + 1); }
        assert !Agree(codes, i + 1, j + 1, k - 1);
      }
    }
  }

  /** A packed window is smaller only for a smaller suffix, and equal only for windows that agree. */
  lemma PackedWindowOrder(codes: Text, i: nat, j: nat, k: nat, bits: nat)
    requires Codes(codes, bits)
    ensures var a, b := Packed(Window(codes, i, k), bits), Packed(Window(codes, j, k), bits);
            && (a == b <==> Agree(codes, i, j, k))
            && (a < b ==> SufLess(codes, i, j))
  {
    var a, b := Window(codes, i, k), Window(codes, j, k);
    WindowCodes(codes, i, k, bits);
    WindowCodes(codes, j, k, bits);
    PackedOrder(a, b, bits);
    WindowsAgree(codes, i, j, k);
    if !Agree(codes, i, j, k) { var d := WindowsDiffer(codes, i, j, k); }
  }
}
