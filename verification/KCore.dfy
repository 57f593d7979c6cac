/**
 k-core decomposition by peeling with a fixed number of passes: for every k, as many passes as
 there are vertices, each looking at every slot and every vertex.
 */
module KCore {
  import opened Common

  // Neighbour slots of every vertex: a label, and a flag that is nonzero when the slot is in use.
  datatype Graph = Graph(neighbors: seq<seq<nat>>, valid: seq<seq<nat>>)

  ghost predicate WellFormed(g: Graph) {
    |g.neighbors| == |g.valid| && forall v :: 0 <= v < |g.neighbors| ==> |g.neighbors[v]| == |g.valid[v]|
  }

  // How many of the first n slots of v are in use and point into the set.
  ghost function Slots(g: Graph, v: nat, u: set<nat>, n: nat): nat
    requires WellFormed(g) && v < |g.neighbors| && n <= |g.neighbors[v]|
  {
    if n == 0 then 0
    else Slots(g, v, u, n - 1) + if g.valid[v][n - 1] != 0 && g.neighbors[v][n - 1] in u then 1 else 0
  }

  ghost function Degree(g: Graph, v: nat, u: set<nat>): nat
    requires WellFormed(g) && v < |g.neighbors|
  {
    Slots(g, v, u, |g.neighbors[v]|)
  }

  // Every member has at least k slots pointing into the set.
  ghost predicate Supported(g: Graph, u: set<nat>, k: nat)
    requires WellFormed(g)
  {
    forall v :: v in u ==> v < |g.neighbors| && Degree(g, v, u) >= k
  }

  ghost predicate InCore(g: Graph, v: nat, k: nat)
    requires WellFormed(g)
  {
    exists u :: v in u && Supported(g, u, k)
  }

  ghost function Core(g: Graph, k: nat): set<nat>
    requires WellFormed(g)
  {
    set v: nat | v < |g.neighbors| && InCore(g, v, k)
  }

  lemma {:induction false} SlotsMonotonic(g: Graph, v: nat, u: set<nat>, w: set<nat>, n: nat)
    requires WellFormed(g) && v < |g.neighbors| && n <= |g.neighbors[v]| && u <= w
    ensures Slots(g, v, u, n) <= Slots(g, v, w, n)
  {
    if n > 0 {
      SlotsMonotonic(g, v, u, w, n - 1);
    }
  }

  // The core is the largest supported set.
  lemma CoreHoldsSupported(g: Graph, u: set<nat>, k: nat)
    requires WellFormed(g) && Supported(g, u, k)
    ensures u <= Core(g, k)
  {
  }

  lemma CoreIsSupported(g: Graph, k: nat)
    requires WellFormed(g)
    ensures Supported(g, Core(g, k), k)
  {
    forall v | v in Core(g, k) ensures Degree(g, v, Core(g, k)) >= k {
      var u :| v in u && Supported(g, u, k);
      CoreHoldsSupported(g, u, k);
      SlotsMonotonic(g, v, u, Core(g, k), |g.neighbors[v]|);
    }
  }

  lemma CoreShrinks(g: Graph, j: nat, k: nat)
    requires WellFormed(g) && j <= k
    ensures Core(g, k) <= Core(g, j)
  {
    CoreIsSupported(g, k);
    CoreHoldsSupported(g, Core(g, k), j);
  }

  // ---- Peeling ----

  ghost function Peel(g: Graph, r: set<nat>, k: nat): set<nat>
    requires WellFormed(g) && forall v :: v in r ==> v < |g.neighbors|
  {
    set v | v in r && Degree(g, v, r) >= k
  }

  // A pass never peels a core vertex, and peels something unless all that remains is core.
  lemma PeelStep(g: Graph, r: set<nat>, k: nat)
    requires WellFormed(g) && (forall v :: v in r ==> v < |g.neighbors|) && Core(g, k) <= r
    ensures Core(g, k) <= Peel(g, r, k) <= r
    ensures r == Core(g, k) || |Peel(g, r, k)| < |r|
  {
    var p := Peel(g, r, k);
    forall v | v in Core(g, k) ensures v in p {
      CoreIsSupported(g, k);
      SlotsMonotonic(g, v, Core(g, k), r, |g.neighbors[v]|);
    }
    if p == r {
      CoreHoldsSupported(g, r, k);
    } else {
      ProperSubsetSize(p, r);
    }
  }

  lemma ProperSubsetSize(s: set<nat>, t: set<nat>)
    requires s < t
    ensures |s| < |t|
  {
    var d := t - s;
    assert t == s + d && d != {};
  }

  lemma CoreZero(g: Graph, all: set<nat>)
    requires WellFormed(g) && forall v: nat :: v in all <==> v < |g.neighbors|
    ensures Core(g, 0) == all
  {
    CoreHoldsSupported(g, all, 0);
  }

  // ---- Labels ----

  // The label of a peeled vertex is the last k whose core it belongs to.
  ghost predicate Labelled(g: Graph, v: nat, core: nat, k: nat)
    requires WellFormed(g)
  {
    core < k && v in Core(g, core) && v !in Core(g, core + 1)
  }

  ghost function Active(remaining: seq<nat>): set<nat> {
    set v: nat | v < |remaining| && remaining[v] != 0
  }

  ghost predicate Flags(remaining: seq<nat>) {
    forall v :: 0 <= v < |remaining| ==> remaining[v] == 0 || remaining[v] == 1
  }

  // The state before and after every pass of round k.
  ghost predicate Peeling(g: Graph, remaining: seq<nat>, labels: seq<nat>, k: nat)
    requires WellFormed(g)
  {
    && |remaining| == |labels| == |g.neighbors| && Flags(remaining) && k >= 1
    && Core(g, k) <= Active(remaining) <= Core(g, k - 1)
    && forall v :: 0 <= v < |g.neighbors| && v !in Active(remaining) ==> Labelled(g, v, labels[v], k)
  }

  ghost predicate Peeled(g: Graph, remaining: seq<nat>, v: nat, k: nat)
    requires WellFormed(g) && v < |remaining| == |g.neighbors|
  {
    remaining[v] != 0 && Degree(g, v, Active(remaining)) < k
  }

  lemma PassStep(g: Graph, remaining: seq<nat>, labels: seq<nat>, k: nat, remaining': seq<nat>, labels': seq<nat>)
    requires WellFormed(g) && Peeling(g, remaining, labels, k)
    requires |remaining'| == |labels'| == |g.neighbors|
    requires forall v :: 0 <= v < |g.neighbors| ==>
      && remaining'[v] == (if Peeled(g, remaining, v, k) then 0 else remaining[v])
      && labels'[v] == (if Peeled(g, remaining, v, k) then k - 1 else labels[v])
    ensures Peeling(g, remaining', labels', k) && Active(remaining') == Peel(g, Active(remaining), k)
    ensures Active(remaining) == Core(g, k) ==> Active(remaining') == Core(g, k)
    ensures Active(remaining) == Core(g, k) || |Active(remaining')| < |Active(remaining)|
  {
    var r := Active(remaining);
    PeelStep(g, r, k);
    CoreIsSupported(g, k);
    assert Active(remaining') == Peel(g, r, k);
    forall v | 0 <= v < |g.neighbors| && v !in Active(remaining') ensures Labelled(g, v, labels'[v], k) {
      if v in r {
        assert v in Core(g, k - 1) && v !in Core(g, k);
      }
    }
  }

  // ---- The entries of the arrays touched, a function of the number of slots of each vertex ----

  // How many slots each vertex has, a size that the program knows.
  function Shape(g: Graph): seq<nat> {
    seq(|g.neighbors|, v requires 0 <= v < |g.neighbors| => |g.neighbors[v]|)
  }

  ghost function Upto(n: nat): seq<nat> {
    if n == 0 then [] else Upto(n - 1) + [n - 1]
  }

  // Every vertex for each of so many slots.
  ghost function SlotTouches(n: nat, slots: nat): seq<nat> {
    if slots == 0 then [] else SlotTouches(n, slots - 1) + Upto(n)
  }

  ghost function CountTouches(shape: seq<nat>, v: nat): seq<nat>
    requires v <= |shape|
  {
    if v == 0 then [] else CountTouches(shape, v - 1) + (SlotTouches(|shape|, shape[v - 1]) + [v - 1])
  }

  ghost function PassTouches(shape: seq<nat>, passes: nat): seq<nat> {
    if passes == 0 then [] else PassTouches(shape, passes - 1) + (CountTouches(shape, |shape|) + Upto(|shape|))
  }

  // The start, and the rounds with as many passes as there are vertices.
  ghost function RoundTouches(shape: seq<nat>, rounds: nat): seq<nat> {
    if rounds == 0 then Upto(|shape|) else RoundTouches(shape, rounds - 1) + PassTouches(shape, |shape|)
  }

  lemma UptoStep(n: nat)
    ensures Upto(0) == [] && Upto(n + 1) == Upto(n) + [n]
  {
  }

  lemma SlotTouchesStep(n: nat, slots: nat)
    ensures SlotTouches(n, 0) == [] && SlotTouches(n, slots + 1) == SlotTouches(n, slots) + Upto(n)
  {
  }

  lemma CountTouchesStep(shape: seq<nat>, v: nat)
    ensures CountTouches(shape, 0) == []
    ensures v < |shape| ==>
      CountTouches(shape, v + 1) == CountTouches(shape, v) + (SlotTouches(|shape|, shape[v]) + [v])
  {
    hide SlotTouches;
  }

  lemma PassTouchesStep(shape: seq<nat>, passes: nat)
    ensures PassTouches(shape, 0) == []
    ensures PassTouches(shape, passes + 1)
      == PassTouches(shape, passes) + (CountTouches(shape, |shape|) + Upto(|shape|))
  {
    hide CountTouches, Upto;
  }

  lemma RoundTouchesStep(shape: seq<nat>, rounds: nat)
    ensures RoundTouches(shape, 0) == Upto(|shape|)
    ensures RoundTouches(shape, rounds + 1) == RoundTouches(shape, rounds) + PassTouches(shape, |shape|)
  {
    hide PassTouches, Upto;
  }

  // ---- The program ----

  // The remaining flag of the vertex a slot points to, found by looking at every vertex.
  method SlotActive(nb: nat, remaining: array<nat>) returns (active: nat, ghost touched: seq<nat>)
    requires Flags(remaining[..])
    ensures active == if nb in Active(remaining[..]) then 1 else 0
    ensures touched == Upto(remaining.Length)
  {
    active, touched := 0, [];
    for u := 0 to remaining.Length
      invariant active == if nb < u && remaining[nb] != 0 then 1 else 0
      invariant touched == Upto(u)
    {
      var isNb := nb == u;
      active := if isNb then remaining[u] else active;
      touched := touched + [u];
    }
  }

  method CountSlots(g: Graph, v: nat, remaining: array<nat>) returns (degree: nat, ghost touched: seq<nat>)
    requires WellFormed(g) && v < |g.neighbors| && Flags(remaining[..])
    ensures degree == Degree(g, v, Active(remaining[..]))
    ensures touched == SlotTouches(remaining.Length, |g.neighbors[v]|)
  {
    hide Upto, SlotTouches;
    degree, touched := 0, [];
    SlotTouchesStep(remaining.Length, 0);
    for s := 0 to |g.neighbors[v]|
      invariant degree == Slots(g, v, Active(remaining[..]), s)
      invariant touched == SlotTouches(remaining.Length, s)
    {
      SlotTouchesStep(remaining.Length, s);
      var active: nat;
      ghost var more: seq<nat>;
      active, more := SlotActive(g.neighbors[v][s], remaining);
      touched := touched + more;
      degree := degree + if g.valid[v][s] != 0 then active else 0;
    }
  }

  // One pass of round k: exactly the vertices with fewer than k active slots are peeled and labelled.
  method Pass(g: Graph, k: nat, remaining: array<nat>, coreLabel: array<nat>) returns (ghost touched: seq<nat>)
    requires WellFormed(g) && remaining.Length == coreLabel.Length == |g.neighbors| && remaining != coreLabel
    requires k >= 1 && Flags(remaining[..])
    modifies remaining, coreLabel
    ensures forall v :: 0 <= v < remaining.Length ==>
      remaining[v] == if Peeled(g, old(remaining[..]), v, k) then 0 else old(remaining[..])[v]
    ensures forall v :: 0 <= v < coreLabel.Length ==>
      coreLabel[v] == if Peeled(g, old(remaining[..]), v, k) then k - 1 else old(coreLabel[..])[v]
    ensures touched == CountTouches(Shape(g), remaining.Length) + Upto(remaining.Length)
  {
    hide Upto, SlotTouches, CountTouches, Peeled, Degree, Active;
    touched := [];
    ghost var shape := Shape(g);
    CountTouchesStep(shape, 0);
    ghost var before := remaining[..];
    var n := remaining.Length;
    var next := new nat[n];
    for v := 0 to n
      invariant remaining[..] == before
      invariant forall w :: 0 <= w < v ==> next[w] == if Peeled(g, before, w, k) then 0 else before[w]
      invariant forall w :: 0 <= w < v ==> coreLabel[w] == if Peeled(g, before, w, k) then k - 1 else old(coreLabel[w])
      invariant forall w :: v <= w < n ==> coreLabel[w] == old(coreLabel[w])
      invariant touched == CountTouches(shape, v)
    {
      CountTouchesStep(shape, v);
      var degree: nat;
      ghost var more: seq<nat>;
      degree, more := CountSlots(g, v, remaining);
      touched := touched + (more + [v]);
      var peel := remaining[v] != 0 && degree < k;
      PeeledIs(g, before, v, k, degree);
      next[v] := if peel then 0 else remaining[v];
      coreLabel[v] := if peel then k - 1 else coreLabel[v];
    }
    ghost var more := CopyBack(next, remaining);
    touched := touched + more;
  }

  lemma PeeledIs(g: Graph, remaining: seq<nat>, v: nat, k: nat, degree: nat)
    requires WellFormed(g) && v < |remaining| == |g.neighbors| && degree == Degree(g, v, Active(remaining))
    ensures Peeled(g, remaining, v, k) == (remaining[v] != 0 && degree < k)
  {
  }

  method CopyBack(next: array<nat>, remaining: array<nat>) returns (ghost touched: seq<nat>)
    requires next.Length == remaining.Length && next != remaining
    modifies remaining
    ensures remaining[..] == next[..] && touched == Upto(remaining.Length)
  {
    touched := [];
    for v := 0 to remaining.Length
      invariant forall w :: 0 <= w < v ==> remaining[w] == next[w]
      invariant touched == Upto(v)
    {
      remaining[v] := next[v];
      touched := touched + [v];
    }
  }

  // Before round k: the active vertices are the core of k - 1 and the others carry their label.
  ghost predicate Settled(g: Graph, remaining: seq<nat>, labels: seq<nat>, k: nat)
    requires WellFormed(g)
  {
    && |remaining| == |labels| == |g.neighbors| && Flags(remaining)
    && Active(remaining) == Core(g, k)
    && forall v :: 0 <= v < |g.neighbors| && v !in Core(g, k) ==> Labelled(g, v, labels[v], k)
  }

  lemma RoundStart(g: Graph, remaining: seq<nat>, labels: seq<nat>, k: nat)
    requires WellFormed(g) && k >= 1 && Settled(g, remaining, labels, k - 1)
    ensures Peeling(g, remaining, labels, k) && |Active(remaining)| <= |remaining|
  {
    CoreShrinks(g, k - 1, k);
    BelowSize(Active(remaining), |remaining|);
  }

  lemma RoundEnd(g: Graph, remaining: seq<nat>, labels: seq<nat>, k: nat)
    requires WellFormed(g) && Peeling(g, remaining, labels, k)
    requires Active(remaining) == Core(g, k) || |Active(remaining)| == 0
    ensures Settled(g, remaining, labels, k)
  {
  }

  // As many passes as there are vertices reach the core of k, whatever the graph.
  method Round(g: Graph, k: nat, remaining: array<nat>, coreLabel: array<nat>) returns (ghost touched: seq<nat>)
    requires WellFormed(g) && remaining.Length == coreLabel.Length == |g.neighbors| && remaining != coreLabel
    requires k >= 1 && Settled(g, remaining[..], coreLabel[..], k - 1)
    modifies remaining, coreLabel
    ensures Settled(g, remaining[..], coreLabel[..], k)
    ensures touched == PassTouches(Shape(g), remaining.Length)
  {
    hide Peeling, Core, Peel, Active, WellFormed, Settled, Degree, Peeled, PassTouches, CountTouches, Upto;
    touched := [];
    PassTouchesStep(Shape(g), 0);
    var n := remaining.Length;
    RoundStart(g, remaining[..], coreLabel[..], k);
    for pass := 0 to n
      invariant Peeling(g, remaining[..], coreLabel[..], k)
      invariant Active(remaining[..]) == Core(g, k) || |Active(remaining[..])| <= n - pass
      invariant touched == PassTouches(Shape(g), pass)
    {
      PassTouchesStep(Shape(g), pass);
      ghost var before, labels := remaining[..], coreLabel[..];
      PeelingFlags(g, before, labels, k);
      ghost var more := Pass(g, k, remaining, coreLabel);
      touched := touched + more;
      PassStep(g, before, labels, k, remaining[..], coreLabel[..]);
    }
    RoundEnd(g, remaining[..], coreLabel[..], k);
  }

  lemma PeelingFlags(g: Graph, remaining: seq<nat>, labels: seq<nat>, k: nat)
    requires WellFormed(g) && Peeling(g, remaining, labels, k)
    ensures Flags(remaining) && |remaining| == |g.neighbors|
  {
  }

  lemma StartSettled(g: Graph, remaining: seq<nat>, labels: seq<nat>)
    requires WellFormed(g) && |remaining| == |labels| == |g.neighbors|
    requires forall v :: 0 <= v < |remaining| ==> remaining[v] == 1
    ensures Settled(g, remaining, labels, 0)
  {
    CoreZero(g, Active(remaining));
  }

  // The label of v is the largest k up to maxK such that v belongs to a set whose members have at
  // least k valid slots into it.
  method KcoreDecompose(g: Graph, maxK: nat, coreLabel: array<nat>) returns (ghost touched: seq<nat>)
    requires WellFormed(g) && coreLabel.Length == |g.neighbors|
    modifies coreLabel
    ensures forall v :: 0 <= v < coreLabel.Length ==> coreLabel[v] <= maxK
    ensures forall v, k :: 0 <= v < coreLabel.Length && 0 <= k <= maxK ==> (InCore(g, v, k) <==> k <= coreLabel[v])
    ensures touched == RoundTouches(Shape(g), maxK) + Upto(coreLabel.Length)
  {
    hide Core, Active, Settled, InCore, RoundTouches, PassTouches, Upto;
    touched := [];
    UptoStep(0);
    var n := coreLabel.Length;
    var remaining := new nat[n];
    for v := 0 to n
      invariant forall w :: 0 <= w < v ==> remaining[w] == 1
      invariant touched == Upto(v)
    {
      UptoStep(v);
      touched := touched + [v];
      remaining[v] := 1;
      coreLabel[v] := 0;
    }
    StartSettled(g, remaining[..], coreLabel[..]);
    RoundTouchesStep(Shape(g), 0);
    for k := 1 to maxK + 1
      invariant Settled(g, remaining[..], coreLabel[..], k - 1)
      invariant touched == RoundTouches(Shape(g), k - 1)
    {
      RoundTouchesStep(Shape(g), k - 1);
      ghost var more := Round(g, k, remaining, coreLabel);
      touched := touched + more;
    }
    ghost var labels, flags, rounds := coreLabel[..], remaining[..], touched;
    assert rounds + [] == rounds;
    for v := 0 to n
      invariant remaining[..] == flags && touched == rounds + Upto(v)
      invariant forall w :: 0 <= w < n ==> coreLabel[w] == if w < v && remaining[w] != 0 then maxK else labels[w]
    {
      coreLabel[v] := if remaining[v] != 0 then maxK else coreLabel[v];
      UptoStep(v);
      touched := touched + [v];
    }
    Finished(g, flags, labels, maxK, coreLabel[..]);
  }

  lemma Finished(g: Graph, remaining: seq<nat>, labels: seq<nat>, maxK: nat, result: seq<nat>)
    requires WellFormed(g) && Settled(g, remaining, labels, maxK) && |result| == |g.neighbors|
    requires forall v :: 0 <= v < |result| ==> result[v] == if remaining[v] != 0 then maxK else labels[v]
    ensures forall v :: 0 <= v < |result| ==> result[v] <= maxK
    ensures forall v, k :: 0 <= v < |result| && 0 <= k <= maxK ==> (InCore(g, v, k) <==> k <= result[v])
  {
    forall v, k | 0 <= v < |result| && 0 <= k <= maxK ensures InCore(g, v, k) <==> k <= result[v] {
      CoreShrinks(g, k, maxK);
      if v !in Core(g, maxK) {
        if k <= result[v] { CoreShrinks(g, k, result[v]); } else { CoreShrinks(g, result[v] + 1, k); }
      }
    }
  }
}
