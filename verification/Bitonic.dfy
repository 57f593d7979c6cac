/**
 The bitonic sorting network run in place over an array of 2^m values, and the duplicate
 detector that sorts with it.

 A pass (k, j) compares every index i with i ^ j. Its effect on the whole array is the
 function Pass. The order proof looks at the array through thresholds: x becomes the truth
 value x >= t. Compare-exchange commutes with every threshold, so it is enough to reason
 about sequences of truth values, where "bitonic" means that the true ones, or the false
 ones, form one interval.
 */
module Bitonic {
  import opened Bits

  const WORD32 := 0x1_0000_0000
  const WORD64 := 0x1_0000_0000_0000_0000
  const INT32_MAX := 0x7fff_ffff

  function Min(x: int, y: int): int { if y < x then y else x }
  function Max(x: int, y: int): int { if y < x then x else y }

  // ---- The network as a function on sequences, for k == 2^p and j == 2^q ----

  ghost predicate Upward(i: nat, p: nat) { And(i, Pow2(p)) == 0 }

  ghost function PassAt(s: seq<int>, p: nat, q: nat, i: nat): int
    requires i < |s|
  {
    var l := Xor(i, Pow2(q));
    if l >= |s| then s[i]
    else if (i < l) == Upward(i, p) then Min(s[i], s[l]) else Max(s[i], s[l])
  }

  ghost function Pass(s: seq<int>, p: nat, q: nat): (r: seq<int>)
    ensures |r| == |s|
  {
    seq(|s|, i requires 0 <= i < |s| => PassAt(s, p, q, i))
  }

  // ---- Blocks, directions and thresholds ----

  ghost predicate Sorted(s: seq<int>) {
    forall x, y :: 0 <= x < y < |s| ==> s[x] <= s[y]
  }

  // Above the threshold exactly on [a, b) (or, when inside is false, exactly off it).
  ghost predicate Interval(s: seq<int>, lo: nat, n: nat, t: int, a: nat, b: nat, inside: bool)
    requires lo + n <= |s|
  {
    a <= b <= n && forall i :: lo <= i < lo + n ==> (s[i] >= t <==> (lo + a <= i < lo + b) == inside)
  }

  ghost predicate BitonicAt(s: seq<int>, lo: nat, n: nat, t: int)
    requires lo + n <= |s|
  {
    exists a: nat, b: nat, inside: bool :: Interval(s, lo, n, t, a, b, inside)
  }

  // x and y lie in the same block of size 2^p, x in an earlier sub-block of size 2^q.
  ghost predicate Before(x: nat, y: nat, p: nat, q: nat) {
    Shr(x, p) == Shr(y, p) && Shr(x, q) < Shr(y, q)
  }

  ghost predicate Directed(s: seq<int>, x: nat, y: nat, p: nat)
    requires x < |s| && y < |s|
  {
    if Upward(x, p) then s[x] <= s[y] else s[x] >= s[y]
  }

  // Within each block of size 2^p the sub-blocks of size 2^q are ordered in the block's direction.
  ghost predicate Ordered(s: seq<int>, p: nat, q: nat) {
    forall x, y :: 0 <= x < |s| && 0 <= y < |s| && Before(x, y, p, q) ==> Directed(s, x, y, p)
  }

  ghost predicate BitonicBlock(s: seq<int>, c: nat, q: nat, t: int) {
    Shl(c, q) + Pow2(q) <= |s| ==> BitonicAt(s, Shl(c, q), Pow2(q), t)
  }

  ghost predicate AllBitonic(s: seq<int>, q: nat) {
    forall c, t :: BitonicBlock(s, c, q, t)
  }

  ghost predicate AllBelow(s: seq<int>, lo: nat, n: nat, t: int)
    requires lo + n <= |s|
  {
    forall i :: lo <= i < lo + n ==> s[i] < t
  }

  ghost predicate AllAtLeast(s: seq<int>, lo: nat, n: nat, t: int)
    requires lo + n <= |s|
  {
    forall i :: lo <= i < lo + n ==> s[i] >= t
  }

  // ---- The half-cleaner ----

  ghost predicate HalfCleaned(s: seq<int>, u: seq<int>, lo: nat, j: nat, up: bool)
    requires lo + 2 * j <= |s| == |u|
  {
    && (forall i {:trigger u[i]} :: lo <= i < lo + j ==>
      u[i] == if up then Min(s[i], s[i + j]) else Max(s[i], s[i + j]))
    && (forall i {:trigger u[i]} :: lo + j <= i < lo + 2 * j ==>
      u[i] == if up then Max(s[i - j], s[i]) else Min(s[i - j], s[i]))
  }

  datatype Range = Range(a: nat, b: nat, inside: bool)

  // Where both halves of a bitonic block pass the threshold, and where at least one does: each is
  // an interval again (or the complement of one), and either nowhere do both or everywhere does one.
  lemma SplitHalves(s: seq<int>, lo: nat, j: nat, t: int) returns (both: Range, either: Range)
    requires lo + 2 * j <= |s|
    requires BitonicAt(s, lo, 2 * j, t)
    ensures both.a <= both.b <= j && either.a <= either.b <= j
    ensures forall i :: lo <= i < lo + j ==>
      ((s[i] >= t && s[i + j] >= t) <==> (lo + both.a <= i < lo + both.b) == both.inside)
    ensures forall i :: lo <= i < lo + j ==>
      ((s[i] >= t || s[i + j] >= t) <==> (lo + either.a <= i < lo + either.b) == either.inside)
    ensures both == Range(0, 0, true) || either == Range(0, 0, false)
  {
    var a: nat, b: nat, inside: bool :| Interval(s, lo, 2 * j, t, a, b, inside);
    var none, all := Range(0, 0, true), Range(0, 0, false);
    if b <= j {
      both := if inside then none else Range(a, b, false);
      either := if inside then Range(a, b, true) else all;
    } else if a >= j {
      both := if inside then none else Range(a - j, b - j, false);
      either := if inside then Range(a - j, b - j, true) else all;
    } else if b - j <= a {
      both := if inside then none else Range(b - j, a, true);
      either := if inside then Range(b - j, a, false) else all;
    } else {
      both := if inside then Range(a, b - j, true) else none;
      either := if inside then all else Range(a, b - j, false);
    }
  }

  lemma HalfCleaner(s: seq<int>, u: seq<int>, lo: nat, j: nat, up: bool, t: int)
    requires lo + 2 * j <= |s| == |u|
    requires HalfCleaned(s, u, lo, j, up)
    requires BitonicAt(s, lo, 2 * j, t)
    ensures BitonicAt(u, lo, j, t) && BitonicAt(u, lo + j, j, t)
    ensures up ==> AllBelow(u, lo, j, t) || AllAtLeast(u, lo + j, j, t)
    ensures !up ==> AllAtLeast(u, lo, j, t) || AllBelow(u, lo + j, j, t)
  {
    var both, either := SplitHalves(s, lo, j, t);
    var low, high := if up then both else either, if up then either else both;
    forall i | lo <= i < lo + j
      ensures u[i] >= t <==> (lo + low.a <= i < lo + low.b) == low.inside
    {
      assert u[i] == if up then Min(s[i], s[i + j]) else Max(s[i], s[i + j]);
    }
    forall i | lo + j <= i < lo + j + j
      ensures u[i] >= t <==> (lo + j + high.a <= i < lo + j + high.b) == high.inside
    {
      var i' := i - j;
      assert s[i' + j] == s[i] && u[i] == if up then Max(s[i'], s[i]) else Min(s[i'], s[i]);
    }
    assert Interval(u, lo, j, t, low.a, low.b, low.inside);
    assert Interval(u, lo + j, j, t, high.a, high.b, high.inside);
  }

  // ---- Index arithmetic of one pass ----

  lemma UpwardByBlock(i: nat, p: nat)
    ensures Upward(i, p) <==> Shr(i, p) % 2 == 0
  {
    AndPow2(i, p);
    BitIsParity(i, p);
  }

  lemma SameDirection(x: nat, y: nat, p: nat)
    requires Shr(x, p) == Shr(y, p)
    ensures Upward(x, p) == Upward(y, p)
  {
    UpwardByBlock(x, p);
    UpwardByBlock(y, p);
  }

  // Sub-blocks refine blocks.
  lemma SubBlock(x: nat, y: nat, p: nat, q: nat)
    requires q <= p && Shr(x, q) == Shr(y, q)
    ensures Shr(x, p) == Shr(y, p)
  {
    ShrCompose(x, q, p - q);
    ShrCompose(y, q, p - q);
  }

  // The partner i ^ 2^q lies in the other half of the same block of size 2^(q+1).
  lemma PartnerFacts(i: nat, q: nat)
    ensures var l := Xor(i, Pow2(q));
            && l == (if Shr(i, q) % 2 == 0 then i + Pow2(q) else i - Pow2(q))
            && Shr(l, q) == (if Shr(i, q) % 2 == 0 then Shr(i, q) + 1 else Shr(i, q) - 1)
            && Shr(l, q + 1) == Shr(i, q + 1) == Shr(i, q) / 2
            && Xor(l, Pow2(q)) == i
  {
    var l := Xor(i, Pow2(q));
    XorPow2(i, q); BitIsParity(i, q);
    XorPow2(l, q); BitOfXorPow2(i, q, q);
    ShiftByPow2(i, l, q);
    ShrCompose(i, q, 1); ShrCompose(l, q, 1);
  }

  lemma ShiftByPow2(i: nat, l: nat, q: nat)
    requires l == if Shr(i, q) % 2 == 0 then i + Pow2(q) else i - Pow2(q)
    ensures Shr(l, q) == if Shr(i, q) % 2 == 0 then Shr(i, q) + 1 else Shr(i, q) - 1
  {
    var c := Shr(i, q);
    var c' := if c % 2 == 0 then c + 1 else c - 1;
    ShrBlock(i, q, c); ShrBlock(l, q, c');
    ShlFacts(c, q); ShlFacts(c', q);
  }

  // A block that starts below 2^m ends at or below 2^m.
  lemma {:induction false} BlockFits(i: nat, q: nat, m: nat)
    requires q <= m && i < Pow2(m)
    ensures Shl(Shr(i, q), q) <= i < Shl(Shr(i, q), q) + Pow2(q) <= Pow2(m)
  {
    if q > 0 {
      BlockFits(i / 2, q - 1, m - 1);
    }
  }

  // ---- One pass halves the size of the bitonic blocks ----

  lemma LowerHalf(c: nat, p: nat, q: nat, i: nat)
    requires q < p && Shl(c, q + 1) <= i < Shl(c, q + 1) + Pow2(q)
    ensures Shr(i, q) == 2 * c && Xor(i, Pow2(q)) == i + Pow2(q) && Xor(i + Pow2(q), Pow2(q)) == i
    ensures Upward(i, p) == Upward(Shl(c, q + 1), p) == Upward(i + Pow2(q), p)
  {
    LowerHalfPartner(c, q, i);
    LowerHalfPartner(c, q, Shl(c, q + 1));
    SubBlock(i, Shl(c, q + 1), p, q + 1); SubBlock(i + Pow2(q), i, p, q + 1);
    SameDirection(i, Shl(c, q + 1), p); SameDirection(i + Pow2(q), i, p);
  }

  lemma LowerHalfPartner(c: nat, q: nat, i: nat)
    requires Shl(c, q + 1) <= i < Shl(c, q + 1) + Pow2(q)
    ensures Shr(i, q) == 2 * c && Shr(i, q + 1) == Shr(i + Pow2(q), q + 1) == c
    ensures Xor(i, Pow2(q)) == i + Pow2(q) && Xor(i + Pow2(q), Pow2(q)) == i
  {
    ShlFacts(c, q);
    ShrBlock(i, q, 2 * c);
    PartnerFacts(i, q);
  }

  lemma PassOnPair(s: seq<int>, p: nat, q: nat, c: nat, i: nat)
    requires q < p && Shl(c, q + 1) <= i < Shl(c, q + 1) + Pow2(q) && i + Pow2(q) < |s|
    ensures var up := Upward(Shl(c, q + 1), p);
            && PassAt(s, p, q, i) == (if up then Min(s[i], s[i + Pow2(q)]) else Max(s[i], s[i + Pow2(q)]))
            && PassAt(s, p, q, i + Pow2(q)) == (if up then Max(s[i], s[i + Pow2(q)]) else Min(s[i], s[i + Pow2(q)]))
  {
    LowerHalf(c, p, q, i);
  }

  lemma PassIsHalfCleaner(s: seq<int>, p: nat, q: nat, c: nat)
    requires q < p && Shl(c, q + 1) + Pow2(q + 1) <= |s|
    ensures HalfCleaned(s, Pass(s, p, q), Shl(c, q + 1), Pow2(q), Upward(Shl(c, q + 1), p))
  {
    var lo, j, up, u := Shl(c, q + 1), Pow2(q), Upward(Shl(c, q + 1), p), Pass(s, p, q);
    forall i {:trigger u[i]} | lo <= i < lo + j
      ensures u[i] == if up then Min(s[i], s[i + j]) else Max(s[i], s[i + j])
    {
      PassOnPair(s, p, q, c, i);
    }
    forall i {:trigger u[i]} | lo + j <= i < lo + 2 * j
      ensures u[i] == if up then Max(s[i - j], s[i]) else Min(s[i - j], s[i])
    {
      PassOnPair(s, p, q, c, i - j);
    }
  }

  lemma PassKeepsBitonic(s: seq<int>, m: nat, p: nat, q: nat, c': nat, t: int)
    requires q < p <= m && |s| == Pow2(m) && AllBitonic(s, q + 1)
    ensures BitonicBlock(Pass(s, p, q), c', q, t)
  {
    if Shl(c', q) + Pow2(q) <= |s| {
      var c, lo := c' / 2, Shl(c', q);
      ShrBlock(lo, q, c'); ShrCompose(lo, q, 1);
      ShlFacts(c, q); ShlFacts(2 * c, q);
      BlockFits(lo, q + 1, m);
      assert BitonicBlock(s, c, q + 1, t);
      PassIsHalfCleaner(s, p, q, c);
      HalfCleaner(s, Pass(s, p, q), Shl(c, q + 1), Pow2(q), Upward(Shl(c, q + 1), p), t);
    }
  }

  // An index keeps its block, so order between different sub-blocks survives a pass.
  lemma PassKeepsFarOrder(s: seq<int>, m: nat, p: nat, q: nat, x: nat, y: nat)
    requires q < p <= m && |s| == Pow2(m) && Ordered(s, p, q + 1)
    requires x < |s| && y < |s| && Before(x, y, p, q + 1)
    ensures Directed(Pass(s, p, q), x, y, p)
  {
    var x', y' := Xor(x, Pow2(q)), Xor(y, Pow2(q));
    PartnerFacts(x, q); PartnerFacts(y, q);
    SubBlock(x, x', p, q + 1); SubBlock(y, y', p, q + 1);
    SameDirection(x, x', p); SameDirection(x, y, p); SameDirection(y, y', p);
    PartnerInRange(x, m, q); PartnerInRange(y, m, q);
    assert Before(x, y', p, q + 1) && Before(x', y, p, q + 1) && Before(x', y', p, q + 1);
    assert Directed(s, x, y, p) && Directed(s, x, y', p) && Directed(s, x', y, p) && Directed(s, x', y', p);
  }

  lemma PartnerInRange(i: nat, m: nat, q: nat)
    requires q < m && i < Pow2(m)
    ensures Xor(i, Pow2(q)) < Pow2(m)
  {
    PartnerFacts(i, q);
    SubBlock(i, Xor(i, Pow2(q)), m, q + 1);
    ShrBlock(i, m, 0); ShrBlock(Xor(i, Pow2(q)), m, 0); ShlOfZero(m);
  }

  lemma SameBlockHalves(x: nat, y: nat, q: nat)
    requires Shr(x, q + 1) == Shr(y, q + 1) && Shr(x, q) < Shr(y, q)
    ensures var lo := Shl(Shr(x, q + 1), q + 1);
            lo <= x < lo + Pow2(q) && lo + Pow2(q) <= y < lo + Pow2(q + 1)
  {
    var c := Shr(x, q + 1);
    ShrCompose(x, q, 1); ShrCompose(y, q, 1);
    ShrBlock(x, q, 2 * c); ShrBlock(y, q, 2 * c + 1);
    ShlFacts(c, q); ShlFacts(2 * c, q);
  }

  lemma PassOrdersHalves(s: seq<int>, m: nat, p: nat, q: nat, x: nat, y: nat)
    requires q < p <= m && |s| == Pow2(m) && AllBitonic(s, q + 1)
    requires x < |s| && y < |s| && Shr(x, q + 1) == Shr(y, q + 1) && Shr(x, q) < Shr(y, q)
    ensures Directed(Pass(s, p, q), x, y, p)
  {
    var c, u := Shr(x, q + 1), Pass(s, p, q);
    var lo, j := Shl(c, q + 1), Pow2(q);
    SameBlockHalves(x, y, q);
    BlockFits(x, q + 1, m);
    LowerHalf(c, p, q, x);
    PassIsHalfCleaner(s, p, q, c);
    var t := if Upward(lo, p) then u[x] else u[y];
    assert BitonicBlock(s, c, q + 1, t);
    HalfCleaner(s, u, lo, j, Upward(lo, p), t);
  }

  lemma PassStep(s: seq<int>, m: nat, p: nat, q: nat)
    requires q < p <= m && |s| == Pow2(m)
    requires Ordered(s, p, q + 1) && AllBitonic(s, q + 1)
    ensures Ordered(Pass(s, p, q), p, q) && AllBitonic(Pass(s, p, q), q)
  {
    var u := Pass(s, p, q);
    forall c, t ensures BitonicBlock(u, c, q, t) {
      PassKeepsBitonic(s, m, p, q, c, t);
    }
    forall x, y | 0 <= x < |u| && 0 <= y < |u| && Before(x, y, p, q) ensures Directed(u, x, y, p) {
      ShrCompose(x, q, 1); ShrCompose(y, q, 1);
      if Shr(x, q + 1) == Shr(y, q + 1) {
        PassOrdersHalves(s, m, p, q, x, y);
      } else {
        PassKeepsFarOrder(s, m, p, q, x, y);
      }
    }
  }

  // ---- Sorted blocks of alternating direction are bitonic blocks of twice the size ----

  lemma {:induction false} Climb(s: seq<int>, lo: nat, n: nat, t: int, up: bool) returns (a: nat)
    requires lo + n <= |s|
    requires forall x, y :: lo <= x < y < lo + n ==> if up then s[x] <= s[y] else s[x] >= s[y]
    ensures a <= n && forall i :: lo <= i < lo + n ==> (s[i] >= t <==> if up then i >= lo + a else i < lo + a)
  {
    if n == 0 {
      a := 0;
    } else if (s[lo + n - 1] >= t) == up {
      a := Climb(s, lo, n - 1, t, up);
    } else {
      a := n;
    }
  }

  lemma NextPhase(s: seq<int>, p: nat)
    requires Ordered(s, p, 0)
    ensures Ordered(s, p + 1, p + 1) && AllBitonic(s, p + 1)
  {
    var q := p + 1;
    forall c, t ensures BitonicBlock(s, c, q, t) {
      if Shl(c, p + 1) + Pow2(p + 1) <= |s| {
        TwoRunsAreBitonic(s, p, c, t);
      }
    }
  }

  lemma BlockIsRun(s: seq<int>, p: nat, c: nat)
    requires Ordered(s, p, 0) && Shl(c, p) + Pow2(p) <= |s|
    ensures forall x, y :: Shl(c, p) <= x < y < Shl(c, p) + Pow2(p) ==>
      if c % 2 == 0 then s[x] <= s[y] else s[x] >= s[y]
  {
    forall x, y | Shl(c, p) <= x < y < Shl(c, p) + Pow2(p)
      ensures if c % 2 == 0 then s[x] <= s[y] else s[x] >= s[y]
    {
      ShrBlock(x, p, c); ShrBlock(y, p, c);
      UpwardByBlock(x, p);
      assert Before(x, y, p, 0);
      assert Directed(s, x, y, p);
    }
  }

  lemma TwoRunsAreBitonic(s: seq<int>, p: nat, c: nat, t: int)
    requires Ordered(s, p, 0) && Shl(c, p + 1) + Pow2(p + 1) <= |s|
    ensures BitonicAt(s, Shl(c, p + 1), Pow2(p + 1), t)
  {
    var n, lo := Pow2(p), Shl(c, p + 1);
    ShlFacts(c, p); ShlFacts(2 * c, p);
    BlockIsRun(s, p, 2 * c); BlockIsRun(s, p, 2 * c + 1);
    var a := Climb(s, lo, n, t, true);
    var b := Climb(s, lo + n, n, t, false);
    assert Interval(s, lo, 2 * n, t, a, n + b, true);
  }

  lemma FirstPhase(s: seq<int>)
    ensures Ordered(s, 0, 0)
  {
  }

  lemma LastPhase(s: seq<int>, m: nat)
    requires |s| == Pow2(m) && Ordered(s, m, 0)
    ensures Sorted(s)
  {
    forall x, y | 0 <= x < y < |s| ensures s[x] <= s[y] {
      ShrBlock(x, m, 0); ShrBlock(y, m, 0); ShlOfZero(m);
      UpwardByBlock(x, m);
      assert Before(x, y, m, 0);
      assert Directed(s, x, y, m);
    }
  }

  // ---- The program ----

  ghost function SweptAt(s: seq<int>, p: nat, q: nat, i: nat, x: nat): int
    requires x < |s|
  {
    if x < i || Xor(x, Pow2(q)) < i then PassAt(s, p, q, x) else s[x]
  }

  // The array in the middle of a sweep: pairs with an index below i are done.
  ghost predicate Swept(s: seq<int>, cur: seq<int>, p: nat, q: nat, i: nat) {
    |cur| == |s| && forall x {:trigger SweptAt(s, p, q, i, x)} :: 0 <= x < |s| ==> cur[x] == SweptAt(s, p, q, i, x)
  }

  ghost predicate OutOfOrder(a: int, b: int, up: bool) {
    if up then b < a else a < b
  }

  ghost function ExchangeIf(s: seq<int>, i: nat, l: nat, up: bool): (r: seq<int>)
    requires i < |s| && l < |s|
    ensures |r| == |s|
  {
    if l > i && OutOfOrder(s[i], s[l], up) then s[i := s[l]][l := s[i]] else s
  }

  lemma ExchangePermutes(s: seq<int>, i: nat, l: nat, up: bool)
    requires i < |s| && l < |s|
    ensures multiset(ExchangeIf(s, i, l, up)) == multiset(s)
  {
  }

  lemma PairAt(s: seq<int>, m: nat, p: nat, q: nat, i: nat)
    requires q < p <= m && |s| == Pow2(m) && i < |s|
    ensures var l := Xor(i, Pow2(q));
            && i != l < |s| && Xor(l, Pow2(q)) == i && Upward(l, p) == Upward(i, p)
            && PassAt(s, p, q, i) == (if (i < l) == Upward(i, p) then Min(s[i], s[l]) else Max(s[i], s[l]))
            && PassAt(s, p, q, l) == (if (l < i) == Upward(i, p) then Min(s[i], s[l]) else Max(s[i], s[l]))
  {
    var l := Xor(i, Pow2(q));
    PartnerFacts(i, q); PartnerInRange(i, m, q);
    SubBlock(i, l, p, q + 1); SameDirection(i, l, p);
  }

  lemma PartnerUnique(x: nat, i: nat, q: nat)
    ensures Xor(x, Pow2(q)) == i <==> x == Xor(i, Pow2(q))
  {
    PartnerFacts(x, q);
    PartnerFacts(i, q);
  }

  lemma SweepStepAt(s: seq<int>, cur: seq<int>, m: nat, p: nat, q: nat, i: nat, x: nat)
    requires q < p <= m && |s| == Pow2(m) == |cur| && i < |s| && x < |s| && Xor(i, Pow2(q)) < |s|
    requires cur[x] == SweptAt(s, p, q, i, x)
    requires cur[i] == SweptAt(s, p, q, i, i)
    requires cur[Xor(i, Pow2(q))] == SweptAt(s, p, q, i, Xor(i, Pow2(q)))
    ensures ExchangeIf(cur, i, Xor(i, Pow2(q)), Upward(i, p))[x] == SweptAt(s, p, q, i + 1, x)
  {
    PairAt(s, m, p, q, i);
    PartnerUnique(x, i, q);
  }

  lemma SweepStep(s: seq<int>, cur: seq<int>, m: nat, p: nat, q: nat, i: nat)
    requires q < p <= m && |s| == Pow2(m) && i < |s|
    requires Swept(s, cur, p, q, i)
    ensures var l := Xor(i, Pow2(q)); i != l < |s| && Swept(s, ExchangeIf(cur, i, l, Upward(i, p)), p, q, i + 1)
  {
    var l := Xor(i, Pow2(q));
    PairAt(s, m, p, q, i);
    var next := ExchangeIf(cur, i, l, Upward(i, p));
    assert cur[i] == SweptAt(s, p, q, i, i) && cur[l] == SweptAt(s, p, q, i, l);
    forall x {:trigger SweptAt(s, p, q, i + 1, x)} | 0 <= x < |s| ensures next[x] == SweptAt(s, p, q, i + 1, x) {
      assert cur[x] == SweptAt(s, p, q, i, x);
      SweepStepAt(s, cur, m, p, q, i, x);
    }
  }

  // The array after the first n steps of a sweep.
  ghost function SweepTo(s: seq<int>, p: nat, q: nat, n: nat): (r: seq<int>)
    ensures |r| == |s|
  {
    if n == 0 then s else
      var cur, i := SweepTo(s, p, q, n - 1), n - 1;
      var l := Xor(i, Pow2(q));
      if i < |s| && l < |s| then ExchangeIf(cur, i, l, Upward(i, p)) else cur
  }

  lemma SweepToStep(s: seq<int>, p: nat, q: nat, i: nat, l: nat)
    requires i < |s| && l == Xor(i, Pow2(q)) < |s|
    ensures SweepTo(s, p, q, i + 1) == ExchangeIf(SweepTo(s, p, q, i), i, l, Upward(i, p))
  {
  }

  lemma {:induction false} SweepToIsSwept(s: seq<int>, m: nat, p: nat, q: nat, n: nat)
    requires q < p <= m && |s| == Pow2(m) && n <= |s|
    ensures Swept(s, SweepTo(s, p, q, n), p, q, n)
    ensures multiset(SweepTo(s, p, q, n)) == multiset(s)
  {
    if n > 0 {
      SweepToIsSwept(s, m, p, q, n - 1);
      var cur, l := SweepTo(s, p, q, n - 1), Xor(n - 1, Pow2(q));
      SweepStep(s, cur, m, p, q, n - 1);
      ExchangePermutes(cur, n - 1, l, Upward(n - 1, p));
    }
  }

  lemma SweepIsPass(s: seq<int>, m: nat, p: nat, q: nat)
    requires q < p <= m && |s| == Pow2(m)
    ensures SweepTo(s, p, q, |s|) == Pass(s, p, q)
    ensures multiset(SweepTo(s, p, q, |s|)) == multiset(s)
  {
    SweepToIsSwept(s, m, p, q, |s|);
    var cur := SweepTo(s, p, q, |s|);
    forall x {:trigger cur[x]} | 0 <= x < |s| ensures cur[x] == Pass(s, p, q)[x] {
      assert cur[x] == SweptAt(s, p, q, |s|, x);
    }
  }

  // The step counter after n sweeps of an array of the given size.
  ghost function Advance(swaps: nat, size: nat, n: nat): nat {
    (swaps + size * n) % WORD64
  }

  lemma AdvanceMore(swaps: nat, size: nat, a: nat, b: nat)
    ensures Advance(Advance(swaps, size, a), size, b) == Advance(swaps, size, a + b)
    ensures Advance(swaps, size, 0) == swaps % WORD64
    ensures Advance(swaps, size, 1) == (swaps + size) % WORD64
    ensures Advance(swaps, 1, size) == (swaps + size) % WORD64
  {
    assert size * (a + b) == size * a + size * b;
    ModAdd(swaps + size * a, size * b);
  }

  lemma ModAdd(x: nat, y: nat)
    ensures (x % WORD64 + y) % WORD64 == (x + y) % WORD64
  {
    var q, q' := x / WORD64, (x % WORD64 + y) / WORD64;
    DivUnique(x + y, WORD64, q + q', (x % WORD64 + y) % WORD64);
  }

  // ---- The pairs touched, a function of the size alone ----

  ghost function SweepPairs(j: nat, n: nat): seq<(nat, nat)> {
    if n == 0 then [] else SweepPairs(j, n - 1) + [(n - 1, Xor(n - 1, j))]
  }

  // The first n sweeps of the merge into blocks of size 2^p.
  ghost function MergePairs(size: nat, p: nat, n: nat): seq<(nat, nat)>
    requires n <= p
  {
    if n == 0 then [] else MergePairs(size, p, n - 1) + SweepPairs(Pow2(p - n), size)
  }

  ghost function SortPairs(size: nat, n: nat): seq<(nat, nat)> {
    if n == 0 then [] else SortPairs(size, n - 1) + MergePairs(size, n, n)
  }

  lemma SweepPairsStep(j: nat, n: nat)
    ensures SweepPairs(j, n + 1) == SweepPairs(j, n) + [(n, Xor(n, j))]
  {
  }

  lemma SweepStarts(s: seq<int>, p: nat, q: nat, j: nat)
    ensures SweepTo(s, p, q, 0) == s && SweepPairs(j, 0) == []
  {
  }

  lemma MergePairsStep(size: nat, p: nat, n: nat)
    requires n <= p
    ensures MergePairs(size, p, n) ==
      if n == 0 then [] else MergePairs(size, p, n - 1) + SweepPairs(Pow2(p - n), size)
  {
  }

  lemma SortPairsStep(size: nat, n: nat)
    ensures SortPairs(size, n) == if n == 0 then [] else SortPairs(size, n - 1) + MergePairs(size, n, n)
  {
  }

  class BitonicSorter {
    // compare-exchange steps executed so far, a 64-bit counter
    var swaps: nat
    // the pairs of elements that these steps have read and written
    ghost var trace: seq<(nat, nat)>

    // The body of the three nested loops.
    method CompareExchange(data: array<int>, i: nat, l: nat, k: nat)
      requires i < data.Length && l < data.Length && i != l
      modifies this, data
      ensures data[..] == ExchangeIf(old(data[..]), i, l, And(i, k) == 0)
      ensures swaps == (old(swaps) + 1) % WORD64
      ensures trace == old(trace) + [(i, l)]
    {
      var pred := l > i && ((And(i, k) == 0 && data[l] < data[i]) || (And(i, k) != 0 && data[i] < data[l]));
      var tmp := data[i];
      data[i] := if pred then data[l] else data[i];
      data[l] := if pred then tmp else data[l];
      swaps := (swaps + 1) % WORD64;
      trace := trace + [(i, l)];
    }

    // The loop over i, for fixed k == 2^p and j == 2^q.
    method Sweep(data: array<int>, k: nat, j: nat, ghost m: nat, ghost p: nat, ghost q: nat)
      requires data.Length == Pow2(m) && q < p <= m && k == Pow2(p) && j == Pow2(q)
      modifies this, data
      ensures data[..] == Pass(old(data[..]), p, q)
      ensures multiset(data[..]) == multiset(old(data[..]))
      ensures swaps == (old(swaps) + data.Length) % WORD64
      ensures trace == old(trace) + SweepPairs(j, data.Length)
    {
      hide Advance, SweepTo, Pass, SweepPairs;
      ghost var s := data[..];
      SweepStarts(s, p, q, j);
      AdvanceMore(old(swaps), 1, 0, 0);
      swaps := swaps % WORD64;
      for i := 0 to data.Length
        invariant data[..] == SweepTo(s, p, q, i)
        invariant swaps == Advance(old(swaps), 1, i)
        invariant trace == old(trace) + SweepPairs(j, i)
      {
        var l := Xor(i, j);
        PairAt(s, m, p, q, i);
        AdvanceMore(old(swaps), 1, i, 1);
        AdvanceMore(swaps, 1, 0, 0);
        SweepPairsStep(j, i);
        CompareExchange(data, i, l, k);
        SweepToStep(s, p, q, i, l);
      }
      AdvanceMore(old(swaps), data.Length, 0, 0);
      SweepIsPass(s, m, p, q);
    }

    // The loop over j, for fixed k == 2^p: merges blocks of size k in p sweeps.
    method Merge(data: array<int>, k: nat, ghost m: nat, ghost p: nat)
      requires data.Length == Pow2(m) && 1 <= p <= m && k == Pow2(p)
      requires Ordered(data[..], p - 1, 0)
      modifies this, data
      ensures Ordered(data[..], p, 0)
      ensures multiset(data[..]) == multiset(old(data[..]))
      ensures swaps == Advance(old(swaps), data.Length, p)
      ensures trace == old(trace) + MergePairs(data.Length, p, p)
    {
      hide Ordered, AllBitonic, Advance, MergePairs, SweepPairs, Pass;
      ghost var cur := data[..];
      NextPhase(cur, p - 1);
      MergePairsStep(data.Length, p, 0);
      AdvanceMore(old(swaps), data.Length, 0, 0);
      swaps := swaps % WORD64;
      var j := k / 2;
      ghost var q := p;
      while j > 0
        invariant 0 <= q <= p && j == if q == 0 then 0 else Pow2(q - 1)
        invariant data[..] == cur && Ordered(cur, p, q) && AllBitonic(cur, q)
        invariant multiset(cur) == multiset(old(data[..]))
        invariant swaps == Advance(old(swaps), data.Length, p - q)
        invariant trace == old(trace) + MergePairs(data.Length, p, p - q)
        decreases q
      {
        q := q - 1;
        PassStep(cur, m, p, q);
        AdvanceMore(old(swaps), data.Length, p - q - 1, 1);
        AdvanceMore(swaps, data.Length, 0, 0);
        MergePairsStep(data.Length, p, p - q);
        Sweep(data, k, j, m, p, q);
        cur := Pass(cur, p, q);
        j := j / 2;
      }
    }

    // Sorts in place, ascending, in exactly size * m * (m + 1) / 2 steps whatever the data.
    method Sort(data: array<int>, ghost m: nat)
      requires data.Length == Pow2(m) && m <= 30
      modifies this, data
      ensures Sorted(data[..]) && multiset(data[..]) == multiset(old(data[..]))
      ensures swaps == Advance(old(swaps), data.Length, SweepCount(m))
      ensures trace == old(trace) + SortPairs(data.Length, m)
    {
      hide Ordered, Sorted, Advance, Triangle, SortPairs, MergePairs, Pow2, SweepCount;
      FirstPhase(data[..]);
      var size := data.Length;
      var k := 2;
      ghost var p, done := 1, 0;
      ghost var cur := data[..];
      swaps := swaps % WORD64;
      AdvanceMore(old(swaps), size, 0, 0);
      TriangleStep(0);
      SortPairsStep(size, 0);
      Doubled(0);
      while k <= size
        invariant done == p - 1 && p <= m + 1 && k == Pow2(p)
        invariant data[..] == cur && Ordered(cur, done, 0)
        invariant multiset(cur) == multiset(old(data[..]))
        invariant swaps == Advance(old(swaps), size, Triangle(done))
        invariant trace == old(trace) + SortPairs(size, done)
        decreases m + 1 - p
      {
        Pow2Order(p, m);
        TriangleStep(p);
        SortPairsStep(size, p);
        AdvanceMore(old(swaps), size, Triangle(done), p);
        Merge(data, k, m, p);
        Doubled(p);
        k := (k * 2) % WORD32;
        p, done, cur := p + 1, p, data[..];
      }
      Pow2Order(p, m);
      LastPhase(cur, m);
      TriangleClosed(m);
    }
  }

  ghost function Triangle(n: nat): nat {
    if n == 0 then 0 else Triangle(n - 1) + n
  }

  lemma TriangleStep(n: nat)
    ensures Triangle(n) == if n == 0 then 0 else Triangle(n - 1) + n
  {
  }

  // Sweeps of a whole sort of 2^m elements, each of as many steps as there are elements.
  function SweepCount(m: nat): nat { m * (m + 1) / 2 }

  lemma {:induction false} TriangleClosed(n: nat)
    ensures Triangle(n) == SweepCount(n)
  {
    if n > 0 {
      TriangleClosed(n - 1);
      assert n * (n + 1) == (n - 1) * n + 2 * n;
    }
  }

  // Doubling a 32-bit k does not wrap while k <= 2^30.
  lemma NoWrap(p: nat)
    requires p <= 30
    ensures 2 * Pow2(p) < WORD32
  {
    Pow2Monotonic(p, 30);
    Pow2Values();
  }

  lemma Doubled(p: nat)
    requires p <= 30
    ensures Pow2(0) == 1 && (Pow2(p) * 2) % WORD32 == Pow2(p + 1)
  {
    NoWrap(p);
  }

  lemma Pow2Order(p: nat, m: nat)
    ensures Pow2(p) <= Pow2(m) <==> p <= m
  {
    if p <= m { Pow2Monotonic(p, m); } else { Pow2Monotonic(m, p); }
  }

  // ---- The duplicate detector ----

  ghost predicate Distinct(s: seq<int>) {
    forall x, y :: 0 <= x < y < |s| ==> s[x] != s[y]
  }

  ghost predicate Repeated(s: seq<int>, v: int) {
    multiset(s)[v] >= 2
  }

  // In a sorted array equal values are neighbours.
  lemma {:induction false} RepeatedIffPair(s: seq<int>, v: int)
    ensures Repeated(s, v) <==> exists x, y :: 0 <= x < y < |s| && s[x] == v == s[y]
  {
    if s != [] {
      var rest := s[1..];
      assert s == [s[0]] + rest;
      RepeatedIffPair(rest, v);
      if Repeated(rest, v) {
        var x, y :| 0 <= x < y < |rest| && rest[x] == v == rest[y];
        assert s[x + 1] == v == s[y + 1];
      } else if s[0] == v && v in rest {
        var y :| 0 <= y < |rest| && rest[y] == v;
        assert s[0] == v == s[y + 1];
      }
      if x, y :| 0 <= x < y < |s| && s[x] == v == s[y] {
        if x > 0 {
          assert rest[x - 1] == v == rest[y - 1];
        } else {
          assert rest[y - 1] == v;
          assert multiset(rest)[v] >= 1;
        }
      }
    }
  }

  ghost predicate Neighbours(s: seq<int>, x: int, v: int) {
    0 <= x < |s| - 1 && s[x] == v == s[x + 1]
  }

  lemma NeighboursDecide(s: seq<int>, v: int)
    requires Sorted(s)
    ensures Repeated(s, v) <==> exists x :: Neighbours(s, x, v)
  {
    RepeatedIffPair(s, v);
    if Repeated(s, v) {
      var x, y :| 0 <= x < y < |s| && s[x] == v == s[y];
      assert s[x] <= s[x + 1] && (x + 1 < y ==> s[x + 1] <= s[y]);
      assert Neighbours(s, x, v);
    }
  }

  lemma DistinctIffNoneRepeated(s: seq<int>)
    ensures Distinct(s) <==> forall v :: !Repeated(s, v)
  {
    forall v ensures Repeated(s, v) <==> exists x, y :: 0 <= x < y < |s| && s[x] == v == s[y] {
      RepeatedIffPair(s, v);
    }
    if !Distinct(s) {
      var x, y :| 0 <= x < y < |s| && s[x] == s[y];
      assert Repeated(s, s[x]);
    }
  }

  // Sorts the elements and reports whether they are distinct; if not, dup is the smallest
  // repeated value.
  method IsDistinct(elements: array<int>, ghost m: nat) returns (distinct: int, dup: int)
    requires elements.Length == Pow2(m) && m <= 30
    modifies elements
    ensures distinct == if Distinct(old(elements[..])) then 1 else 0
    ensures distinct == 1 ==> dup == INT32_MAX
    ensures distinct == 0 ==> IsSmallestRepeated(old(elements[..]), dup)
    ensures Sorted(elements[..]) && multiset(elements[..]) == multiset(old(elements[..]))
  {
    hide SortPairs, Advance, Sorted, Scanned;
    var sorter := new BitonicSorter;
    sorter.Sort(elements, m);
    ghost var s := elements[..];

    distinct := 1;
    dup := INT32_MAX;
    ScanStarts(s);
    var i := elements.Length - 2;
    while i >= 0
      invariant -1 <= i <= elements.Length - 2 && elements[..] == s
      invariant Scanned(s, i, distinct, dup)
    {
      ScanStep(s, i, distinct, dup);
      var pred := elements[i] == elements[i + 1];
      dup := if pred then elements[i] else dup;
      distinct := if pred then 0 else distinct;
      i := i - 1;
    }
    ScanDecides(s, old(elements[..]), distinct, dup);
  }

  ghost predicate IsSmallestRepeated(s: seq<int>, v: int) {
    Repeated(s, v) && forall w :: Repeated(s, w) ==> v <= w
  }

  // What the descending scan knows about the pairs of neighbours above i.
  ghost predicate Scanned(s: seq<int>, i: int, distinct: int, dup: int) {
    if distinct == 1 then
      dup == INT32_MAX && forall x, v :: x > i ==> !Neighbours(s, x, v)
    else
      distinct == 0 && (exists x :: Neighbours(s, x, dup)) && forall x, v :: x > i && Neighbours(s, x, v) ==> dup <= v
  }

  lemma ScanStarts(s: seq<int>)
    ensures Scanned(s, |s| - 2, 1, INT32_MAX)
  {
  }

  lemma ScanStep(s: seq<int>, i: nat, distinct: int, dup: int)
    requires i < |s| - 1 && Sorted(s) && Scanned(s, i, distinct, dup)
    ensures var pred := s[i] == s[i + 1];
            Scanned(s, i - 1, if pred then 0 else distinct, if pred then s[i] else dup)
  {
    assert s[i] == s[i + 1] ==> Neighbours(s, i, s[i]);
  }

  lemma ScanDecides(s: seq<int>, original: seq<int>, distinct: int, dup: int)
    requires Sorted(s) && multiset(s) == multiset(original)
    requires Scanned(s, -1, distinct, dup)
    ensures distinct == if Distinct(original) then 1 else 0
    ensures distinct == 1 ==> dup == INT32_MAX
    ensures distinct == 0 ==> IsSmallestRepeated(original, dup)
  {
    DistinctIffNoneRepeated(original);
    forall v ensures Repeated(original, v) <==> exists x :: Neighbours(s, x, v) {
      NeighboursDecide(s, v);
    }
    if distinct == 1 {
      forall v ensures !Repeated(original, v) {
        assert forall x :: Neighbours(s, x, v) ==> x > -1;
      }
    } else {
      assert Repeated(original, dup);
    }
  }
}
