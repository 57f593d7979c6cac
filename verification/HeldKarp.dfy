/**
 The Held-Karp travelling-salesman solver: tables over bit masks of visited cities, the loop
 that closes the cycle, and the walk over parents that prints a tour.

 Costs are capped at INF: an entry is the cheapest path cost when that is below INF and INF
 otherwise, so no bound on path costs is assumed. Additions are 64 bits wide.
 */
module HeldKarp {
  import opened Bits
  import opened Common

  const INF := 1_000_000_000

  type Graph = seq<seq<nat>>

  ghost predicate Square(g: Graph) {
    |g| > 0 && forall i :: 0 <= i < |g| ==> |g[i]| == |g|
  }

  // Weights to which an entry of the table can be added without leaving 64 bits.
  ghost predicate NoWrap(g: Graph) requires Square(g) {
    forall i, j :: 0 <= i < |g| && 0 <= j < |g| ==> g[i][j] + INF < 0x1_0000_0000_0000_0000
  }

  function Add64(x: nat, y: nat): nat { (x + y) % 0x1_0000_0000_0000_0000 }

  // ---- Paths, the reference ----

  // p starts at city 0, ends at last, and visits exactly the cities of the mask, each once.
  ghost predicate IsPath(n: nat, p: seq<nat>, mask: nat, last: nat) {
    && |p| > 0 && p[0] == 0 && p[|p| - 1] == last
    && (forall i :: 0 <= i < |p| ==> p[i] < n)
    && (forall i, j :: 0 <= i < j < |p| ==> p[i] != p[j])
    && (forall c :: c in p <==> Bit(mask, c))
  }

  ghost function Cost(g: Graph, p: seq<nat>): nat
    requires Square(g) && forall i :: 0 <= i < |p| ==> p[i] < |g|
  {
    if |p| <= 1 then 0 else Cost(g, p[..|p| - 1]) + g[p[|p| - 2]][p[|p| - 1]]
  }

  // ---- The tables as functions ----

  datatype Entry = Entry(cost: nat, parent: nat)

  ghost function Best(g: Graph, mask: nat, last: nat): (e: Entry)
    requires Square(g) && last < |g|
    ensures e.cost <= INF && e.parent < |g|
    decreases mask, 0, 0
  {
    if !Bit(mask, 0) || !Bit(mask, last) || (last == 0 && mask != 1) then Entry(INF, 0)
    else if last == 0 then Entry(0, 0)
    else
      XorPow2(mask, last);
      BestOver(g, Xor(mask, Pow2(last)), last, |g|)
  }

  // The cheapest way to come to last over the previous cities below k, the first of equals.
  ghost function BestOver(g: Graph, prevMask: nat, last: nat, k: nat): (e: Entry)
    requires Square(g) && last < |g| && k <= |g|
    ensures e.cost <= INF && e.parent < |g|
    decreases prevMask, 1, k
  {
    if k == 0 then Entry(INF, 0)
    else
      var e, prev := BestOver(g, prevMask, last, k - 1), k - 1;
      if !Bit(prevMask, prev) then e
      else
        var cand := Add64(Best(g, prevMask, prev).cost, g[prev][last]);
        if cand < e.cost then Entry(cand, prev) else e
  }

  lemma AddFits(g: Graph, cost: nat, i: nat, j: nat)
    requires Square(g) && NoWrap(g) && cost <= INF && i < |g| && j < |g|
    ensures Add64(cost, g[i][j]) == cost + g[i][j]
  {
  }

  lemma {:induction false} BestOverIsMinimum(g: Graph, prevMask: nat, last: nat, k: nat)
    requires Square(g) && NoWrap(g) && last < |g| && k <= |g|
    ensures var e := BestOver(g, prevMask, last, k);
            && (forall prev :: 0 <= prev < k && Bit(prevMask, prev) ==>
              e.cost <= Best(g, prevMask, prev).cost + g[prev][last])
            && (e.cost < INF ==>
              && e.parent < k && Bit(prevMask, e.parent)
              && e.cost == Best(g, prevMask, e.parent).cost + g[e.parent][last])
  {
    if k > 0 {
      BestOverIsMinimum(g, prevMask, last, k - 1);
      AddFits(g, Best(g, prevMask, k - 1).cost, k - 1, last);
      assert BestOver(g, prevMask, last, k) ==
        var e := BestOver(g, prevMask, last, k - 1);
        var cand := Add64(Best(g, prevMask, k - 1).cost, g[k - 1][last]);
        if Bit(prevMask, k - 1) && cand < e.cost then Entry(cand, k - 1) else e;
      hide Best, BestOver, Add64, NoWrap, Bit;
    }
  }

  // ---- The table holds the cheapest path costs, capped at INF ----

  lemma RemoveLast(n: nat, p: seq<nat>, mask: nat, last: nat)
    requires IsPath(n, p, mask, last) && last != 0
    ensures |p| >= 2 && Bit(mask, last) && Bit(mask, 0)
    ensures IsPath(n, p[..|p| - 1], Xor(mask, Pow2(last)), p[|p| - 2])
  {
    var q, m := p[..|p| - 1], Xor(mask, Pow2(last));
    assert p[0] in p && last in p;
    forall c ensures c in q <==> Bit(m, c) {
      BitOfXorPow2(mask, last, c);
      assert c in p <==> c in q || c == last;
    }
  }

  lemma OnlyStart(n: nat, p: seq<nat>, mask: nat)
    requires IsPath(n, p, mask, 0)
    ensures mask == 1 && p == [0]
  {
    assert |p| == 1;
    forall c: nat ensures Bit(mask, c) == Bit(1, c) {
      assert Bit(mask, c) <==> c in p;
      if c > 0 { BitOfZero(c - 1); }
    }
    SameBits(mask, 1);
  }

  lemma {:induction false} NoPathIsCheaper(g: Graph, p: seq<nat>, mask: nat, last: nat)
    requires Square(g) && NoWrap(g) && last < |g| && IsPath(|g|, p, mask, last)
    ensures Best(g, mask, last).cost <= Cost(g, p)
    decreases |p|
  {
    if last == 0 {
      OnlyStart(|g|, p, mask);
    } else {
      RemoveLast(|g|, p, mask, last);
      var q, m, prev := p[..|p| - 1], Xor(mask, Pow2(last)), p[|p| - 2];
      NoPathIsCheaper(g, q, m, prev);
      assert prev in q;
      BestOverIsMinimum(g, m, last, |g|);
    }
  }

  // The path read off the parents, from its last city back.
  ghost function Trace(g: Graph, mask: nat, last: nat): (p: seq<nat>)
    requires Square(g) && last < |g|
    ensures |p| > 0 && p[|p| - 1] == last && forall i :: 0 <= i < |p| ==> p[i] < |g|
    decreases mask
  {
    if last == 0 || !Bit(mask, last) then [last]
    else
      XorPow2(mask, last);
      Trace(g, Xor(mask, Pow2(last)), Best(g, mask, last).parent) + [last]
  }

  lemma StartPath(n: nat)
    requires n > 0
    ensures IsPath(n, [0], 1, 0)
  {
    forall c: nat ensures c in [0] <==> Bit(1, c) {
      if c > 0 { BitOfZero(c - 1); }
    }
  }

  lemma CostExtend(g: Graph, q: seq<nat>, last: nat)
    requires Square(g) && |q| > 0 && last < |g| && forall i :: 0 <= i < |q| ==> q[i] < |g|
    ensures Cost(g, q + [last]) == Cost(g, q) + g[q[|q| - 1]][last]
  {
    assert (q + [last])[..|q|] == q;
  }

  // The parent of a reachable entry leads to a cheapest path over one city less.
  lemma ParentIsCheapest(g: Graph, mask: nat, last: nat)
    requires Square(g) && NoWrap(g) && 0 < last < |g| && Best(g, mask, last).cost < INF
    ensures var m, prev := Xor(mask, Pow2(last)), Best(g, mask, last).parent;
            && Bit(mask, last) && m < mask && Trace(g, mask, last) == Trace(g, m, prev) + [last]
            && Best(g, m, prev).cost + g[prev][last] == Best(g, mask, last).cost
  {
    XorPow2(mask, last);
    BestOverIsMinimum(g, Xor(mask, Pow2(last)), last, |g|);
  }

  lemma {:induction false} TraceIsCheapest(g: Graph, mask: nat, last: nat)
    requires Square(g) && NoWrap(g) && last < |g| && Best(g, mask, last).cost < INF
    ensures IsPath(|g|, Trace(g, mask, last), mask, last)
    ensures Cost(g, Trace(g, mask, last)) == Best(g, mask, last).cost
    decreases mask
  {
    if last == 0 {
      StartPath(|g|);
    } else {
      var m, prev := Xor(mask, Pow2(last)), Best(g, mask, last).parent;
      ParentIsCheapest(g, mask, last);
      TraceIsCheapest(g, m, prev);
      ExtendPath(|g|, Trace(g, m, prev), m, prev, mask, last);
      CostExtend(g, Trace(g, m, prev), last);
    }
  }

  lemma ExtendPath(n: nat, q: seq<nat>, m: nat, prev: nat, mask: nat, last: nat)
    requires IsPath(n, q, m, prev) && last < n && Bit(mask, last) && m == Xor(mask, Pow2(last))
    ensures IsPath(n, q + [last], mask, last)
  {
    var p := q + [last];
    BitOfXorPow2(mask, last, last);
    assert last !in q;
    forall c ensures c in p <==> Bit(mask, c) {
      BitOfXorPow2(mask, last, c);
    }
  }

  // dp[mask][last] is the cheapest cost of a path over exactly the cities of mask that ends at
  // last, or INF when there is none below INF.
  lemma EntryIsCappedOptimum(g: Graph, mask: nat, last: nat)
    requires Square(g) && NoWrap(g) && last < |g|
    ensures var e := Best(g, mask, last);
            && e.cost <= INF
            && (forall p :: IsPath(|g|, p, mask, last) ==> e.cost <= Cost(g, p))
            && (e.cost < INF ==> exists p :: IsPath(|g|, p, mask, last) && Cost(g, p) == e.cost)
  {
    forall p | IsPath(|g|, p, mask, last) ensures Best(g, mask, last).cost <= Cost(g, p) {
      NoPathIsCheaper(g, p, mask, last);
    }
    if Best(g, mask, last).cost < INF {
      TraceIsCheapest(g, mask, last);
    }
  }

  // ---- Closing the cycle ----

  ghost predicate IsTour(n: nat, p: seq<nat>) {
    |p| == n > 1 && p[0] == 0
    && (forall i :: 0 <= i < |p| ==> p[i] < n)
    && (forall i, j :: 0 <= i < j < |p| ==> p[i] != p[j])
  }

  ghost function TourCost(g: Graph, p: seq<nat>): nat
    requires Square(g) && IsTour(|g|, p)
  {
    Cost(g, p) + g[p[|p| - 1]][0]
  }

  // The cheapest way to close the cycle from a last city below k.
  ghost function BestCycle(g: Graph, k: nat): (e: Entry)
    requires Square(g) && k <= |g|
    ensures e.cost <= INF && e.parent < |g|
  {
    if k <= 1 then Entry(INF, 0)
    else
      var e := BestCycle(g, k - 1);
      var tour := Add64(Best(g, Pow2(|g|) - 1, k - 1).cost, g[k - 1][0]);
      if tour < e.cost then Entry(tour, k - 1) else e
  }

  lemma {:induction false} BestCycleIsMinimum(g: Graph, k: nat)
    requires Square(g) && NoWrap(g) && k <= |g|
    ensures var e, full := BestCycle(g, k), Pow2(|g|) - 1;
            && (forall last :: 1 <= last < k ==> e.cost <= Best(g, full, last).cost + g[last][0])
            && (e.cost < INF ==> 1 <= e.parent < k && e.cost == Best(g, full, e.parent).cost + g[e.parent][0])
  {
    if k > 1 {
      BestCycleIsMinimum(g, k - 1);
      AddFits(g, Best(g, Pow2(|g|) - 1, k - 1).cost, k - 1, 0);
    }
  }

  // Tours are the paths over all cities.
  lemma TourIsPath(n: nat, p: seq<nat>)
    requires IsTour(n, p)
    ensures IsPath(n, p, Pow2(n) - 1, p[n - 1]) && 1 <= p[n - 1] < n
  {
    assert p[0] == 0 && p[n - 1] != p[0];
    forall c: nat ensures c in p <==> Bit(Pow2(n) - 1, c) {
      FullMask(n, c);
      if c < n { Covers(n, p, c); }
    }
  }

  lemma {:induction false} FullMask(n: nat, c: nat)
    ensures Bit(Pow2(n) - 1, c) <==> c < n
  {
    if n == 0 {
      BitOfZero(c);
    } else if c > 0 {
      assert (Pow2(n) - 1) / 2 == Pow2(n - 1) - 1;
      FullMask(n - 1, c - 1);
    }
  }

  // n distinct numbers below n include every one of them.
  lemma {:induction false} Covers(n: nat, p: seq<nat>, c: nat)
    requires |p| == n && c < n && (forall i :: 0 <= i < |p| ==> p[i] < n)
    requires forall i, j :: 0 <= i < j < |p| ==> p[i] != p[j]
    ensures c in p
  {
    var s := set i | 0 <= i < |p| :: p[i];
    DistinctSize(p, s);
    BelowSize(s + {c}, n);
    assert c !in s ==> |s + {c}| == n + 1;
  }

  lemma {:induction false} DistinctSize(p: seq<nat>, s: set<nat>)
    requires s == set i | 0 <= i < |p| :: p[i]
    requires forall i, j :: 0 <= i < j < |p| ==> p[i] != p[j]
    ensures |s| == |p|
  {
    if p != [] {
      var q := p[..|p| - 1];
      var t := set i | 0 <= i < |q| :: q[i];
      DistinctSize(q, t);
      assert s == t + {p[|p| - 1]};
    }
  }

  lemma PathIsTour(n: nat, p: seq<nat>, last: nat)
    requires n > 1 && IsPath(n, p, Pow2(n) - 1, last)
    ensures IsTour(n, p) && last == p[n - 1]
  {
    var s := set i | 0 <= i < |p| :: p[i];
    DistinctSize(p, s);
    BelowSize(s, n);
    forall c | 0 <= c < n ensures c in s {
      FullMask(n, c);
      assert c in p;
    }
    AllBelowSize(n, s);
  }

  lemma {:induction false} AllBelowSize(n: nat, s: set<nat>)
    requires forall c :: 0 <= c < n ==> c in s
    ensures |s| >= n
  {
    if n > 0 {
      AllBelowSize(n - 1, s - {n - 1});
    }
  }

  // The reported cost is the cheapest tour's, or INF when no tour is cheaper than INF; below INF
  // the parents trace a tour of that cost.
  lemma CycleIsCappedOptimum(g: Graph)
    requires Square(g) && NoWrap(g) && |g| > 1
    ensures var e := BestCycle(g, |g|);
            && (forall p :: IsTour(|g|, p) ==> e.cost <= TourCost(g, p))
            && (e.cost < INF ==>
              var p := Trace(g, Pow2(|g|) - 1, e.parent);
              IsTour(|g|, p) && TourCost(g, p) == e.cost)
  {
    forall p | IsTour(|g|, p) ensures BestCycle(g, |g|).cost <= TourCost(g, p) {
      NoTourIsCheaper(g, p);
    }
    if BestCycle(g, |g|).cost < INF {
      TracedTour(g);
    }
  }

  lemma NoTourIsCheaper(g: Graph, p: seq<nat>)
    requires Square(g) && NoWrap(g) && IsTour(|g|, p)
    ensures BestCycle(g, |g|).cost <= TourCost(g, p)
  {
    TourIsPath(|g|, p);
    ClosingIsNoCheaper(g, p, p[|g| - 1]);
  }

  lemma ClosingIsNoCheaper(g: Graph, p: seq<nat>, last: nat)
    requires Square(g) && NoWrap(g) && 1 <= last < |g| && IsPath(|g|, p, Pow2(|g|) - 1, last)
    ensures BestCycle(g, |g|).cost <= Cost(g, p) + g[last][0]
  {
    hide Best, BestCycle, Cost, Pow2, IsPath;
    BestCycleIsMinimum(g, |g|);
    NoPathIsCheaper(g, p, Pow2(|g|) - 1, last);
  }

  lemma TracedTour(g: Graph)
    requires Square(g) && NoWrap(g) && |g| > 1 && BestCycle(g, |g|).cost < INF
    ensures var e := BestCycle(g, |g|); var p := Trace(g, Pow2(|g|) - 1, e.parent);
            IsTour(|g|, p) && TourCost(g, p) == e.cost
  {
    hide IsTour, IsPath, NoWrap, Best, BestCycle, Trace, Cost, Pow2;
    var full, last := Pow2(|g|) - 1, BestCycle(g, |g|).parent;
    BestCycleIsMinimum(g, |g|);
    TraceIsCheapest(g, full, last);
    PathIsTour(|g|, Trace(g, full, last), last);
  }

  // ---- The program ----

  ghost predicate IsTable(g: Graph, dp: array2<nat>, parent: array2<nat>)
    requires Square(g)
  {
    dp != parent && dp.Length0 == parent.Length0 == Pow2(|g|) && dp.Length1 == parent.Length1 == |g|
  }

  ghost predicate Holds(g: Graph, dp: array2<nat>, parent: array2<nat>, m: nat, c: nat)
    requires Square(g) && IsTable(g, dp, parent) && m < Pow2(|g|) && c < |g|
    reads dp, parent
  {
    dp[m, c] == Best(g, m, c).cost && parent[m, c] == Best(g, m, c).parent
  }

  // The rows below mask are done, and row mask below last; the others are as initialized.
  ghost predicate Filled(g: Graph, dp: array2<nat>, parent: array2<nat>, mask: nat, last: nat)
    requires Square(g) && IsTable(g, dp, parent)
    reads dp, parent
  {
    forall m: nat, c: nat {:trigger dp[m, c]} {:trigger parent[m, c]} {:trigger Holds(g, dp, parent, m, c)} ::
      m < Pow2(|g|) && c < |g| ==>
      if m < mask || (m == mask && c < last) then Holds(g, dp, parent, m, c)
      else dp[m, c] == (if m == 1 && c == 0 then 0 else INF) && parent[m, c] == 0
  }

  // Fills dp and parent, mask by mask.
  method HeldKarpTsp(g: Graph, dp: array2<nat>, parent: array2<nat>)
    requires Square(g) && |g| <= 31 && IsTable(g, dp, parent)
    modifies dp, parent
    ensures forall m, c :: 0 <= m < Pow2(|g|) && 0 <= c < |g| ==> Holds(g, dp, parent, m, c)
  {
    var n := |g|;
    for mask := 0 to dp.Length0
      invariant forall m, c :: 0 <= m < mask && 0 <= c < n ==> dp[m, c] == INF && parent[m, c] == 0
    {
      for city := 0 to n
        invariant forall m, c :: 0 <= m <= mask && 0 <= c < n && (m < mask || c < city) ==>
          dp[m, c] == INF && parent[m, c] == 0
      {
        dp[mask, city] := INF;
        parent[mask, city] := 0;
      }
    }
    Pow2Monotonic(1, n);
    dp[1, 0] := 0;

    for mask := 0 to dp.Length0
      invariant Filled(g, dp, parent, mask, 0)
    {
      for last := 0 to n
        invariant Filled(g, dp, parent, mask, last)
      {
        FillEntry(g, dp, parent, mask, last);
      }
    }
  }

  // The body of the loops over mask and last.
  method FillEntry(g: Graph, dp: array2<nat>, parent: array2<nat>, mask: nat, last: nat)
    requires Square(g) && |g| <= 31 && IsTable(g, dp, parent)
    requires mask < Pow2(|g|) && last < |g| && Filled(g, dp, parent, mask, last)
    modifies dp, parent
    ensures Filled(g, dp, parent, mask, last + 1)
  {
    var prevMask := Xor(mask, Pow2(last));
    EntryCases(g, mask, last);
    if And(mask, 1) == 0 || And(mask, Pow2(last)) == 0 || (last == 0 && mask != 1) || (prevMask == 0 && last != 0) {
      assert Holds(g, dp, parent, mask, last);
      return;
    }
    var best: nat, bestParent: nat := dp[mask, last], parent[mask, last];
    if last == 0 && mask == 1 {
      best, bestParent := 0, 0;
    } else {
      best, bestParent := BestPrevious(g, dp, parent, prevMask, last);
    }
    dp[mask, last] := best;
    parent[mask, last] := bestParent;
    assert Holds(g, dp, parent, mask, last);
    forall m: nat, c: nat | m < Pow2(|g|) && c < |g| && (m < mask || (m == mask && c < last))
      ensures Holds(g, dp, parent, m, c)
    {
      assert old(Holds(g, dp, parent, m, c));
    }
  }

  // The innermost loop.
  method BestPrevious(g: Graph, dp: array2<nat>, parent: array2<nat>, prevMask: nat, last: nat)
    returns (best: nat, bestParent: nat)
    requires Square(g) && IsTable(g, dp, parent) && prevMask < Pow2(|g|) && last < |g|
    requires forall c :: 0 <= c < |g| ==> Holds(g, dp, parent, prevMask, c)
    ensures Entry(best, bestParent) == BestOver(g, prevMask, last, |g|)
  {
    best, bestParent := INF, 0;
    for prev := 0 to |g|
      invariant Entry(best, bestParent) == BestOver(g, prevMask, last, prev)
    {
      AndPow2(prevMask, prev);
      assert Holds(g, dp, parent, prevMask, prev);
      if And(prevMask, Pow2(prev)) != 0 {
        var cand := Add64(dp[prevMask, prev], g[prev][last]);
        var better := cand < best;
        best := if better then cand else best;
        bestParent := if better then prev else bestParent;
      }
    }
  }

  lemma EntryCases(g: Graph, mask: nat, last: nat)
    requires Square(g) && last < |g|
    ensures var prevMask := Xor(mask, Pow2(last));
            if And(mask, 1) == 0 || And(mask, Pow2(last)) == 0 || (last == 0 && mask != 1)
              || (prevMask == 0 && last != 0) then
              Best(g, mask, last) == Entry(INF, 0) && (mask != 1 || last != 0)
            else if last == 0 then Best(g, mask, last) == Entry(0, 0)
            else Best(g, mask, last) == BestOver(g, prevMask, last, |g|) && prevMask < mask && !(mask == 1 && last == 0)
  {
    AndPow2(mask, 0); AndPow2(mask, last);
    XorPow2(mask, last);
    BitOfXorPow2(mask, last, 0);
  }

  // The cheapest way to close the cycle.
  method CloseCycle(g: Graph, dp: array2<nat>, parent: array2<nat>) returns (bestCycle: nat, bestLast: nat)
    requires Square(g) && |g| > 1 && IsTable(g, dp, parent)
    requires forall m, c :: 0 <= m < Pow2(|g|) && 0 <= c < |g| ==> Holds(g, dp, parent, m, c)
    ensures Entry(bestCycle, bestLast) == BestCycle(g, |g|)
  {
    var fullMask := Pow2(|g|) - 1;
    bestCycle := INF;
    bestLast := 0;
    for last := 1 to |g|
      invariant Entry(bestCycle, bestLast) == BestCycle(g, last)
    {
      assert Holds(g, dp, parent, fullMask, last);
      var cost := Add64(dp[fullMask, last], g[last][0]);
      var better := cost < bestCycle;
      bestCycle := if better then cost else bestCycle;
      bestLast := if better then last else bestLast;
    }
  }

  // The cities in the order they are printed between the two zeros.
  method WalkParents(g: Graph, dp: array2<nat>, parent: array2<nat>, bestLast: nat) returns (tour: seq<nat>)
    requires Square(g) && |g| > 1 && IsTable(g, dp, parent) && bestLast < |g|
    requires forall m, c :: 0 <= m < Pow2(|g|) && 0 <= c < |g| ==> Holds(g, dp, parent, m, c)
    ensures |tour| == |g| - 1
    ensures var p := Trace(g, Pow2(|g|) - 1, bestLast); IsTour(|g|, p) ==> [0] + Reversed(tour) == p
  {
    var n, fullMask := |g|, Pow2(|g|) - 1;
    tour := [];
    var mask: nat, cur: nat := fullMask, bestLast;
    assert Reversed([]) == [] && Trace(g, fullMask, bestLast) == Trace(g, fullMask, bestLast) + [];
    for step := 1 to n
      invariant |tour| == step - 1 && mask < Pow2(n) && cur < n
      invariant Walked(g, fullMask, bestLast, mask, cur, tour)
    {
      WalkStep(g, fullMask, bestLast, mask, cur, tour);
      assert Holds(g, dp, parent, mask, cur);
      tour := tour + [cur];
      var prev := parent[mask, cur];
      XorPow2Below(mask, cur, n);
      mask := Xor(mask, Pow2(cur));
      cur := prev;
    }
    WalkEnd(g, bestLast, mask, cur, tour);
  }

  // The solver: the cheapest tour cost, capped at INF, and when it is below INF the cities of a
  // tour of that cost, last city first.
  method BestTour(g: Graph) returns (bestCycle: nat, tour: seq<nat>)
    requires Square(g) && 1 < |g| <= 31
    ensures bestCycle == BestCycle(g, |g|).cost && |tour| == |g| - 1
    ensures NoWrap(g) ==> forall p :: IsTour(|g|, p) ==> bestCycle <= TourCost(g, p)
    ensures NoWrap(g) && bestCycle < INF ==>
      IsTour(|g|, [0] + Reversed(tour)) && TourCost(g, [0] + Reversed(tour)) == bestCycle
  {
    var dp, parent := new nat[Pow2(|g|), |g|], new nat[Pow2(|g|), |g|];
    HeldKarpTsp(g, dp, parent);
    var bestLast;
    bestCycle, bestLast := CloseCycle(g, dp, parent);
    tour := WalkParents(g, dp, parent, bestLast);
    if NoWrap(g) {
      CycleIsCappedOptimum(g);
    }
  }

  // What is left of the traced path together with the cities already printed, in reverse.
  ghost predicate Walked(g: Graph, full: nat, bestLast: nat, mask: nat, cur: nat, tour: seq<nat>)
    requires Square(g) && bestLast < |g| && cur < |g|
  {
    |Trace(g, full, bestLast)| == |g| ==> Trace(g, full, bestLast) == Trace(g, mask, cur) + Reversed(tour)
  }

  lemma WalkStep(g: Graph, full: nat, bestLast: nat, mask: nat, cur: nat, tour: seq<nat>)
    requires Square(g) && bestLast < |g| && cur < |g| && |tour| + 1 < |g|
    requires Walked(g, full, bestLast, mask, cur, tour)
    ensures Walked(g, full, bestLast, Xor(mask, Pow2(cur)), Best(g, mask, cur).parent, tour + [cur])
  {
    assert Reversed(tour + [cur]) == [cur] + Reversed(tour);
    if |Trace(g, full, bestLast)| == |g| {
      var rest := Trace(g, Xor(mask, Pow2(cur)), Best(g, mask, cur).parent);
      assert |Trace(g, mask, cur)| >= 2;
      assert Trace(g, mask, cur) == rest + [cur];
      assert rest + [cur] + Reversed(tour) == rest + ([cur] + Reversed(tour));
    }
  }

  lemma WalkEnd(g: Graph, bestLast: nat, mask: nat, cur: nat, tour: seq<nat>)
    requires Square(g) && bestLast < |g| && cur < |g| && |tour| + 1 == |g|
    requires Walked(g, Pow2(|g|) - 1, bestLast, mask, cur, tour)
    ensures var p := Trace(g, Pow2(|g|) - 1, bestLast); IsTour(|g|, p) ==> [0] + Reversed(tour) == p
  {
    var p := Trace(g, Pow2(|g|) - 1, bestLast);
    if IsTour(|g|, p) {
      assert |Trace(g, mask, cur)| == 1;
      assert p[0] == Trace(g, mask, cur)[0];
    }
  }

  ghost function Reversed(s: seq<nat>): (r: seq<nat>)
    ensures |r| == |s| && forall i :: 0 <= i < |s| ==> r[i] == s[|s| - 1 - i]
  {
    if s == [] then [] else Reversed(s[1..]) + [s[0]]
  }
}
