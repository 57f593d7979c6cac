/**
 Minimum spanning tree by Prim's algorithm with oblivious vertex selection: every pass looks at
 every matrix entry, and conditional moves decide what is kept.
 */
module Prim {
  import opened Common
  import opened SpanningTree

  ghost function KnownSet(known: seq<bool>): set<int> {
    set i | 0 <= i < |known| && known[i]
  }

  // The links (i, path[i]) of the vertices reached so far, the root 0 aside.
  ghost function TreeLinks(path: seq<int>, vertices: set<int>): set<Link>
    requires forall i :: i in vertices ==> 0 <= i < |path|
  {
    set i | i in vertices && i != 0 :: Join(i, path[i])
  }

  // ---- What one vertex knows about its cheapest link into the tree ----

  ghost predicate Cheapest(g: Graph, from: set<int>, j: int, d: int, p: int, p0: int)
    requires Symmetric(g) && 0 <= j < |g|
  {
    && d <= INT_MAX
    && (if d < INT_MAX then p in from && Adjacent(g, p, j) && g[p][j] == d else p == p0)
    && forall i :: i in from && Adjacent(g, i, j) ==> d <= g[i][j]
  }

  // Every unknown vertex knows its cheapest link from the vertices in from.
  ghost predicate Relaxed(g: Graph, known: set<int>, from: set<int>, dist: seq<int>, path: seq<int>, path0: seq<int>)
    requires Symmetric(g)
  {
    && |dist| == |path| == |path0| == |g|
    && forall j :: 0 <= j < |g| && j !in known ==> Cheapest(g, from, j, dist[j], path[j], path0[j])
  }

  ghost predicate Better(g: Graph, known: seq<bool>, min: int, d: int, j: int)
    requires Symmetric(g) && |known| == |g| && 0 <= j < |g|
  {
    0 <= min < |g| && !known[j] && g[min][j] != 0 && g[min][j] < d
  }

  // The effect on dist and path of vertex min offering its links.
  ghost predicate Offered(g: Graph, known: seq<bool>, min: int, dist: seq<int>, path: seq<int>, dist': seq<int>,
    path': seq<int>)
    requires Symmetric(g) && |known| == |dist| == |path| == |g|
  {
    && |dist'| == |path'| == |g|
    && (forall j :: 0 <= j < |g| ==> dist'[j] == if Better(g, known, min, dist[j], j) then g[min][j] else dist[j])
    && (forall j :: 0 <= j < |g| ==> path'[j] == if Better(g, known, min, dist[j], j) then min else path[j])
  }

  // The unknown vertex chosen, and the known flags after it is marked.
  ghost predicate Picked(known: seq<bool>, dist: seq<int>, known': seq<bool>, min: int)
    requires |known| == |dist|
  {
    if min == -1 then
      known' == known && forall j :: 0 <= j < |dist| && !known[j] ==> dist[j] >= INT_MAX
    else
      && 0 <= min < |dist| && !known[min] && known' == known[min := true] && dist[min] < INT_MAX
      && forall j :: 0 <= j < |dist| && !known[j] ==> dist[min] <= dist[j] && (j < min ==> dist[min] < dist[j])
  }

  lemma RelaxStep(g: Graph, known: seq<bool>, min: int, dist: seq<int>, path: seq<int>, dist': seq<int>,
    path': seq<int>, path0: seq<int>)
    requires Symmetric(g) && |known| == |dist| == |path| == |g|
    requires min == -1 || min in KnownSet(known)
    requires Relaxed(g, KnownSet(known), KnownSet(known) - {min}, dist, path, path0)
    requires Offered(g, known, min, dist, path, dist', path')
    ensures Relaxed(g, KnownSet(known), KnownSet(known), dist', path', path0)
    ensures TreeLinks(path', KnownSet(known)) == TreeLinks(path, KnownSet(known))
  {
    var k := KnownSet(known);
    forall j | 0 <= j < |g| && j !in k ensures Cheapest(g, k, j, dist'[j], path'[j], path0[j]) {
      assert Cheapest(g, k - {min}, j, dist[j], path[j], path0[j]);
      forall i | i in k && Adjacent(g, i, j) ensures dist'[j] <= g[i][j] {
        assert i == min || i in k - {min};
      }
    }
    assert forall i :: i in k ==> path'[i] == path[i];
  }

  // ---- The tree built so far ----

  ghost predicate Grown(g: Graph, known: set<int>, links: set<Link>)
    requires Symmetric(g)
  {
    && 0 in known && known <= Component(g)
    && IsSpanningTree(g, known, links)
    && Extendable(g, Component(g), links)
  }

  lemma GrownAtStart(g: Graph)
    requires Symmetric(g) && |g| > 0
    ensures Grown(g, {0}, {})
  {
    assert IsWalk(g, [0]);
    forall t | IsSpanningTree(g, Component(g), t) ensures HasExtension(g, Component(g), {}, t) {
    }
  }

  // Adding the unknown vertex with the cheapest link keeps the tree extendable to an optimal one.
  lemma GrowStep(g: Graph, known: set<int>, links: set<Link>, u: int, v: int)
    requires Symmetric(g) && Grown(g, known, links) && LightestCrossing(g, known, u, v)
    ensures Grown(g, known + {v}, links + {Join(u, v)})
  {
    hide Extendable, Connects, Reachable;
    ReachableStep(g, 0, u, v);
    ExtendByLightest(g, Component(g), known, links, u, v);
    AttachConnects(known, links, u, v);
    JoinFacts(g, u, v);
    assert Join(u, v) !in links;
  }

  lemma CheapestIsLightest(g: Graph, known: set<int>, dist: seq<int>, path: seq<int>, path0: seq<int>, v: int)
    requires Symmetric(g) && Relaxed(g, known, known, dist, path, path0)
    requires 0 <= v < |g| && v !in known && dist[v] < INT_MAX
    requires forall j :: 0 <= j < |g| && j !in known ==> dist[v] <= dist[j]
    ensures LightestCrossing(g, known, path[v], v)
  {
    forall x, y | x in known && y !in known && Adjacent(g, x, y) ensures dist[v] <= g[x][y] {
      assert Cheapest(g, known, y, dist[y], path[y], path0[y]);
    }
  }

  lemma NotCheapest(g: Graph, known: set<int>, i: int, j: int, dist: seq<int>, path: seq<int>, path0: seq<int>)
    requires Symmetric(g) && Relaxed(g, known, known, dist, path, path0) && i in known && Adjacent(g, i, j)
    ensures j in known || dist[j] < INT_MAX
  {
  }

  // When no unknown vertex has a link into the tree, the tree spans the component.
  lemma NoneLeft(g: Graph, known: set<int>, links: set<Link>, dist: seq<int>, path: seq<int>, path0: seq<int>)
    requires Symmetric(g) && Relaxed(g, known, known, dist, path, path0) && Grown(g, known, links)
    requires forall j :: 0 <= j < |g| && j !in known ==> dist[j] >= INT_MAX
    ensures known == Component(g) && IsMinimumSpanningTree(g, Component(g), links)
  {
    hide Relaxed, Adjacent, Symmetric, Component, IsMinimumSpanningTree, Extendable, Connects;
    KnownIsClosed(g, known, dist, path, path0);
    ClosedHoldsComponent(g, known);
    assert known == Component(g);
    ExtendableTreeIsMinimum(g, Component(g), links);
  }

  lemma KnownIsClosed(g: Graph, known: set<int>, dist: seq<int>, path: seq<int>, path0: seq<int>)
    requires Symmetric(g) && Relaxed(g, known, known, dist, path, path0)
    requires forall j :: 0 <= j < |g| && j !in known ==> dist[j] >= INT_MAX
    ensures forall i, j :: i in known && Adjacent(g, i, j) ==> j in known
  {
    forall i, j | i in known && Adjacent(g, i, j) ensures j in known {
      NotCheapest(g, known, i, j, dist, path, path0);
    }
  }

  // ---- One round: relax the links of the newest vertex, then add the nearest unknown one ----

  ghost predicate Finished(g: Graph, known: set<int>, links: set<Link>, min: int)
    requires Symmetric(g)
  {
    min == -1 && known == Component(g) && IsMinimumSpanningTree(g, known, links)
  }

  ghost predicate AfterRound(g: Graph, known: seq<bool>, dist: seq<int>, path: seq<int>, path0: seq<int>, min: int,
    round: nat)
    requires Symmetric(g)
  {
    var k := KnownSet(known);
    && |known| == |dist| == |path| == |path0| == |g|
    && (min == -1 || min in k)
    && Relaxed(g, k, k - {min}, dist, path, path0)
    && Grown(g, k, TreeLinks(path, k))
    && path[0] == path0[0]
    && (round + 1 <= |k| || Finished(g, k, TreeLinks(path, k), min))
  }

  lemma TreeLinksAdd(path: seq<int>, known: set<int>, v: int)
    requires forall i :: i in known + {v} ==> 0 <= i < |path|
    requires v != 0
    ensures TreeLinks(path, known + {v}) == TreeLinks(path, known) + {Join(path[v], v)}
  {
  }

  lemma AddPicked(g: Graph, known: set<int>, dist: seq<int>, path: seq<int>, path0: seq<int>, v: int)
    requires Symmetric(g) && Relaxed(g, known, known, dist, path, path0)
    requires (forall i :: i in known ==> 0 <= i < |path|) && Grown(g, known, TreeLinks(path, known))
    requires 0 <= v < |g| && v !in known && dist[v] < INT_MAX
    requires forall j :: 0 <= j < |g| && j !in known ==> dist[v] <= dist[j]
    ensures Grown(g, known + {v}, TreeLinks(path, known + {v}))
  {
    assert v != 0;
    hide Grown;
    CheapestIsLightest(g, known, dist, path, path0, v);
    hide LightestCrossing, Relaxed, Symmetric;
    GrowStep(g, known, TreeLinks(path, known), path[v], v);
    TreeLinksAdd(path, known, v);
  }

  lemma AddOrFinish(g: Graph, known: seq<bool>, dist: seq<int>, path: seq<int>, path0: seq<int>, min: int,
    known': seq<bool>)
    requires Symmetric(g) && |known| == |dist| == |path| == |g|
    requires Relaxed(g, KnownSet(known), KnownSet(known), dist, path, path0)
    requires Grown(g, KnownSet(known), TreeLinks(path, KnownSet(known)))
    requires Picked(known, dist, known', min)
    ensures KnownSet(known') == if min == -1 then KnownSet(known) else KnownSet(known) + {min}
    ensures min == -1 ==> Finished(g, KnownSet(known), TreeLinks(path, KnownSet(known)), min)
    ensures min != -1 ==> Grown(g, KnownSet(known'), TreeLinks(path, KnownSet(known')))
  {
    hide Grown, Relaxed, IsMinimumSpanningTree, Symmetric;
    var k := KnownSet(known);
    if min == -1 {
      NoneLeft(g, k, TreeLinks(path, k), dist, path, path0);
    } else {
      AddPicked(g, k, dist, path, path0, min);
      assert KnownSet(known') == k + {min};
    }
  }

  // min was the newest vertex; picked is what MinVal then chooses.
  lemma RoundStep(g: Graph, known: seq<bool>, dist: seq<int>, path: seq<int>, path0: seq<int>, min: int, round: nat,
                  dist': seq<int>, path': seq<int>, picked: int, known': seq<bool>)
    requires Symmetric(g) && |g| > 0 && AfterRound(g, known, dist, path, path0, min, round)
    requires Offered(g, known, min, dist, path, dist', path')
    requires Picked(known, dist', known', picked)
    ensures AfterRound(g, known', dist', path', path0, picked, round + 1)
  {
    var k, k' := KnownSet(known), KnownSet(known');
    assert 0 in k && |dist'| == |path'| == |g| && path'[0] == path[0];
    assert picked != -1 ==> picked !in k;
    RelaxStep(g, known, min, dist, path, dist', path', path0);
    hide Finished, Grown, Symmetric, Relaxed, Offered;
    AddOrFinish(g, known, dist', path', path0, picked, known');
    assert k' - {picked} == k;
  }

  // ---- The entries touched, a function of the number of vertices alone ----

  // The entries of one vertex in the arrays, or the weight of an edge and those of its far end.
  datatype Access = Vertex(i: nat) | Edge(i: nat, j: nat)

  ghost function Vertices(n: nat): seq<Access> {
    if n == 0 then [] else Vertices(n - 1) + [Vertex(n - 1)]
  }

  // All edges of n vertices in order, as far as (i, j).
  ghost function Edges(n: nat, i: nat, j: nat): seq<Access>
    decreases i, j
  {
    if j > 0 then Edges(n, i, j - 1) + [Edge(i, j - 1)] else if i > 0 then Edges(n, i - 1, n) else []
  }

  // The first vertices known, and then so many rounds.
  ghost function PrimTouches(n: nat, rounds: nat): seq<Access> {
    if rounds == 0 then Vertices(n) else PrimTouches(n, rounds - 1) + Edges(n, n, 0) + (Vertices(n) + Vertices(n))
  }

  lemma VerticesStep(n: nat)
    ensures Vertices(0) == [] && Vertices(n + 1) == Vertices(n) + [Vertex(n)]
  {
  }

  lemma EdgesStep(n: nat, i: nat, j: nat)
    ensures Edges(n, 0, 0) == [] && Edges(n, i + 1, 0) == Edges(n, i, n)
    ensures Edges(n, i, j + 1) == Edges(n, i, j) + [Edge(i, j)]
  {
  }

  lemma PrimTouchesStep(n: nat, rounds: nat)
    ensures PrimTouches(n, 0) == Vertices(n)
    ensures PrimTouches(n, rounds + 1) ==
      PrimTouches(n, rounds) + Edges(n, n, 0) + (Vertices(n) + Vertices(n))
  {
    hide Edges, Vertices;
  }

  // ---- The program ----

  // Picks the unknown vertex with the smallest distance below INT_MAX (the first of several) and
  // marks it known; -1 when there is none.
  method MinVal(dist: array<int>, known: array<bool>) returns (min: int, ghost touched: seq<Access>)
    requires dist.Length == known.Length && dist as object != known as object
    modifies known
    ensures Picked(old(known[..]), dist[..], known[..], min)
    ensures touched == Vertices(dist.Length) + Vertices(dist.Length)
  {
    min, touched := -1, [];
    var distVal := INT_MAX;
    for i := 0 to dist.Length
      invariant -1 <= min < i
      invariant distVal == if min == -1 then INT_MAX else dist[min]
      invariant min >= 0 ==> !known[min] && distVal < INT_MAX
      invariant forall j :: 0 <= j < i && !known[j] ==> distVal <= dist[j] && (j < min ==> distVal < dist[j])
      invariant touched == Vertices(i) && known[..] == old(known[..])
    {
      VerticesStep(i);
      var condition := distVal > dist[i] && !known[i];
      distVal := if condition then dist[i] else distVal;
      min := if condition then i else min;
      touched := touched + [Vertex(i)];
    }
    ghost var before, half := known[..], touched;
    assert half + [] == half;
    for i := 0 to known.Length
      invariant forall j :: 0 <= j < known.Length ==> known[j] == (before[j] || (j == min && j < i))
      invariant touched == half + Vertices(i)
    {
      VerticesStep(i);
      known[i] := if min == i then true else known[i];
      touched := touched + [Vertex(i)];
    }
  }

  // The two inner loops: lets vertex min offer its links to the unknown vertices.
  method Relax(graph: Graph, known: array<bool>, dist: array<int>, path: array<int>, min: int)
    returns (ghost touched: seq<Access>)
    requires Symmetric(graph) && known.Length == dist.Length == path.Length == |graph| && dist != path
    requires -1 <= min < |graph| && (min >= 0 ==> known[min])
    modifies dist, path
    ensures Offered(graph, known[..], min, old(dist[..]), old(path[..]), dist[..], path[..])
    ensures touched == Edges(|graph|, |graph|, 0)
  {
    hide Edges;
    touched := [];
    EdgesStep(|graph|, 0, 0);
    for i := 0 to |graph|
      invariant touched == Edges(|graph|, i, 0)
      invariant forall j :: 0 <= j < |graph| ==>
        dist[j] == if min < i && Better(graph, known[..], min, old(dist[j]), j) then graph[min][j] else old(dist[j])
      invariant forall j :: 0 <= j < |graph| ==>
        path[j] == if min < i && Better(graph, known[..], min, old(dist[j]), j) then min else old(path[j])
    {
      EdgesStep(|graph|, i, 0);
      for j := 0 to |graph|
        invariant touched == Edges(|graph|, i, j)
        invariant forall x :: 0 <= x < |graph| ==>
          dist[x] == if (min < i || (min == i && x < j))
          && Better(graph, known[..], min, old(dist[x]), x) then graph[min][x] else old(dist[x])
        invariant forall x :: 0 <= x < |graph| ==>
          path[x] == if (min < i || (min == i && x < j))
          && Better(graph, known[..], min, old(dist[x]), x) then min else old(path[x])
      {
        var condition := min == i && !known[j] && graph[i][j] != 0 && graph[i][j] < dist[j];
        dist[j] := if condition then graph[i][j] else dist[j];
        path[j] := if condition then min else path[j];
        EdgesStep(|graph|, i, j);
        touched := touched + [Edge(i, j)];
      }
    }
  }

  // The links (i, path[i]) of the vertices other than 0 that 0 can reach form a minimum spanning
  // tree of its component; path is unchanged at 0 and outside the component.
  method MinSpanTree(graph: Graph, path: array<int>) returns (ghost touched: seq<Access>)
    requires Symmetric(graph) && path.Length == |graph| > 0
    modifies path
    ensures IsMinimumSpanningTree(graph, Component(graph), TreeLinks(path[..], Component(graph)))
    ensures forall i :: 0 <= i < |graph| && (i == 0 || i !in Component(graph)) ==> path[i] == old(path[i])
    ensures touched == PrimTouches(|graph|, |graph|)
  {
    hide Component, AfterRound, Symmetric, Offered, IsMinimumSpanningTree, PrimTouches, Vertices, Edges;
    ghost var path0 := path[..];
    var n := |graph|;
    var dist := new int[n];
    var known := new bool[n];
    var min := 0;
    touched := [];
    VerticesStep(0);
    for i := 0 to n
      invariant path[..] == path0 && touched == Vertices(i)
      invariant forall j :: 0 <= j < i ==> dist[j] == (if j == 0 then 0 else INT_MAX) && known[j] == (j == 0)
    {
      dist[i] := if min == i then 0 else INT_MAX;
      known[i] := if min == i then true else false;
      VerticesStep(i);
      touched := touched + [Vertex(i)];
    }
    PrimTouchesStep(n, 0);
    AtStart(graph, known[..], dist[..], path0);

    for round := 0 to n
      invariant -1 <= min < n && (min >= 0 ==> known[min])
      invariant AfterRound(graph, known[..], dist[..], path[..], path0, min, round)
      invariant touched == PrimTouches(n, round)
    {
      ghost var edges: seq<Access>, vertices: seq<Access>;
      PrimTouchesStep(n, round);
      ghost var known1, dist1, path1, min1 := known[..], dist[..], path[..], min;
      edges := Relax(graph, known, dist, path, min);
      min, vertices := MinVal(dist, known);
      touched := touched + edges + vertices;
      RoundStep(graph, known1, dist1, path1, path0, min1, round, dist[..], path[..], min, known[..]);
    }
    AtEnd(graph, known[..], dist[..], path[..], path0, min, n);
    assert forall i :: 0 <= i < n ==> path[i] == path[..][i] && old(path[i]) == path0[i];
  }

  // The links found connect all vertices exactly when 0 reaches all of them.
  lemma SpansAllExactly(g: Graph, links: set<Link>, all: set<int>)
    requires Symmetric(g) && |g| > 0 && IsMinimumSpanningTree(g, Component(g), links)
    requires forall v :: v in all <==> 0 <= v < |g|
    ensures Connects(links, all) <==> Component(g) == all
  {
    var c := Component(g);
    ReachesItself(g);
    assert c <= all && !CrossedBy(c, links);
  }

  lemma ReachesItself(g: Graph)
    requires Symmetric(g) && |g| > 0
    ensures 0 in Component(g)
  {
    assert IsWalk(g, [0]) && [0][0] == 0 && [0][|[0]| - 1] == 0;
  }

  // Of the components {0} and {1, 2} only the first is spanned: the entries of path for the edge
  // between 1 and 2 stay as they were.
  method SecondComponentIsLeft(path: array<int>)
    requires path.Length == 3
    modifies path
    ensures Adjacent([[0, 0, 0], [0, 0, 5], [0, 5, 0]], 1, 2) && path[..] == old(path[..])
  {
    var g := [[0, 0, 0], [0, 0, 5], [0, 5, 0]];
    assert Symmetric(g);
    ClosedHoldsComponent(g, {0});
    ghost var touched := MinSpanTree(g, path);
  }

  lemma AtStart(g: Graph, known: seq<bool>, dist: seq<int>, path: seq<int>)
    requires Symmetric(g) && |known| == |dist| == |path| == |g| > 0
    requires forall j :: 0 <= j < |g| ==> dist[j] == (if j == 0 then 0 else INT_MAX) && known[j] == (j == 0)
    ensures AfterRound(g, known, dist, path, path, 0, 0)
  {
    GrownAtStart(g);
    assert KnownSet(known) == {0} && {0} - {0} == {};
    assert TreeLinks(path, {0}) == {};
  }

  lemma AtEnd(g: Graph, known: seq<bool>, dist: seq<int>, path: seq<int>, path0: seq<int>, min: int, n: nat)
    requires Symmetric(g) && n == |g| > 0 && AfterRound(g, known, dist, path, path0, min, n)
    ensures IsMinimumSpanningTree(g, Component(g), TreeLinks(path, Component(g)))
    ensures forall i :: 0 <= i < |g| && (i == 0 || i !in Component(g)) ==> path[i] == path0[i]
  {
    BelowSize(KnownSet(known), n);
    forall i | 0 <= i < |g| && i !in Component(g) ensures path[i] == path0[i] {
      assert Cheapest(g, KnownSet(known), i, dist[i], path[i], path0[i]);
      if dist[i] < INT_MAX {
        ReachableStep(g, 0, path[i], i);
      }
    }
  }
}
