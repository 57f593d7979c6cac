/**
 Undirected weighted graphs given by a symmetric adjacency matrix, their spanning trees, and
 the exchange argument behind Prim's algorithm.

 An entry is an edge when it is neither 0 (no edge) nor INT_MAX and above (unreachable). A set
 of links connects a vertex set when every way of cutting the vertices in two is crossed by a
 link; a spanning tree connects and has one link fewer than there are vertices.
 */
module SpanningTree {

  const INT_MAX := 0x7fff_ffff

  type Graph = seq<seq<int>>

  datatype Link = Link(a: int, b: int)

  function Join(i: int, j: int): Link { if i < j then Link(i, j) else Link(j, i) }

  ghost predicate Symmetric(g: Graph) {
    && (forall i :: 0 <= i < |g| ==> |g[i]| == |g|)
    && (forall i, j :: 0 <= i < |g| && 0 <= j < |g| ==> g[i][j] == g[j][i])
  }

  ghost predicate Adjacent(g: Graph, i: int, j: int)
    requires Symmetric(g)
  {
    0 <= i < |g| && 0 <= j < |g| && i != j && g[i][j] != 0 && g[i][j] < INT_MAX
  }

  ghost predicate IsWalk(g: Graph, p: seq<int>)
    requires Symmetric(g)
  {
    |p| > 0 && forall k :: 0 <= k < |p| - 1 ==> Adjacent(g, p[k], p[k + 1])
  }

  ghost predicate Reachable(g: Graph, i: int, j: int)
    requires Symmetric(g)
  {
    exists p :: IsWalk(g, p) && p[0] == i && p[|p| - 1] == j
  }

  // The vertices a walk leads to from vertex 0.
  ghost function Component(g: Graph): set<int>
    requires Symmetric(g)
  {
    set v | 0 <= v < |g| && Reachable(g, 0, v)
  }

  ghost predicate Crosses(e: Link, s: set<int>) { (e.a in s) != (e.b in s) }

  ghost predicate CrossedBy(s: set<int>, links: set<Link>) {
    exists e :: e in links && Crosses(e, s)
  }

  ghost predicate Within(links: set<Link>, vertices: set<int>) {
    forall e :: e in links ==> e.a in vertices && e.b in vertices
  }

  ghost predicate Connects(links: set<Link>, vertices: set<int>) {
    forall s {:trigger CrossedBy(s, links)} :: s < vertices && s != {} ==> CrossedBy(s, links)
  }

  ghost predicate EdgesOf(g: Graph, links: set<Link>)
    requires Symmetric(g)
  {
    forall e :: e in links ==> e.a < e.b && Adjacent(g, e.a, e.b)
  }

  ghost predicate IsSpanningTree(g: Graph, vertices: set<int>, links: set<Link>)
    requires Symmetric(g)
  {
    EdgesOf(g, links) && Within(links, vertices) && Connects(links, vertices) && |links| == |vertices| - 1
  }

  ghost function Weight(g: Graph, e: Link): int
    requires Symmetric(g)
  {
    if 0 <= e.a < |g| && 0 <= e.b < |g| then g[e.a][e.b] else 0
  }

  ghost function TotalWeight(g: Graph, links: set<Link>): int
    requires Symmetric(g)
  {
    if links == {} then 0 else
      var e :| e in links;
      Weight(g, e) + TotalWeight(g, links - {e})
  }

  lemma {:induction false} TotalWeightRemove(g: Graph, links: set<Link>, e: Link)
    requires Symmetric(g) && e in links
    ensures TotalWeight(g, links) == Weight(g, e) + TotalWeight(g, links - {e})
  {
    var f :| f in links && TotalWeight(g, links) == Weight(g, f) + TotalWeight(g, links - {f});
    if f != e {
      TotalWeightRemove(g, links - {f}, e);
      TotalWeightRemove(g, links - {e}, f);
      assert links - {f} - {e} == links - {e} - {f};
    }
  }

  ghost predicate IsMinimumSpanningTree(g: Graph, vertices: set<int>, links: set<Link>)
    requires Symmetric(g)
  {
    && IsSpanningTree(g, vertices, links)
    && forall t :: IsSpanningTree(g, vertices, t) ==> TotalWeight(g, links) <= TotalWeight(g, t)
  }

  // ---- Connecting by cuts is connecting by walks ----

  lemma {:induction false} WalkStays(g: Graph, s: set<int>, p: seq<int>)
    requires Symmetric(g) && IsWalk(g, p) && p[0] in s
    requires forall i, j :: i in s && Adjacent(g, i, j) ==> j in s
    ensures p[|p| - 1] in s
  {
    if |p| > 1 {
      assert Adjacent(g, p[0], p[1]);
      WalkStays(g, s, p[1..]);
    }
  }

  lemma ReachableStep(g: Graph, i: int, j: int, v: int)
    requires Symmetric(g) && Reachable(g, i, j) && Adjacent(g, j, v)
    ensures Reachable(g, i, v)
  {
    var p :| IsWalk(g, p) && p[0] == i && p[|p| - 1] == j;
    assert IsWalk(g, p + [v]) && (p + [v])[|p|] == v;
  }

  // A set holding 0 that no edge leaves holds the whole component.
  lemma ClosedHoldsComponent(g: Graph, s: set<int>)
    requires Symmetric(g) && 0 in s
    requires forall i, j :: i in s && Adjacent(g, i, j) ==> j in s
    ensures Component(g) <= s
  {
    forall v | v in Component(g) ensures v in s {
      var p :| IsWalk(g, p) && p[0] == 0 && p[|p| - 1] == v;
      WalkStays(g, s, p);
    }
  }

  // ---- The exchange argument ----

  ghost predicate ClosedIsland(links: set<Link>, sea: set<int>, d: set<int>) {
    forall e :: e in links && Crosses(e, d) ==> e.a in sea || e.b in sea
  }

  // No cut that the links away from the sea respect splits the island.
  ghost predicate Unsplit(links: set<Link>, sea: set<int>, d: set<int>, v: int) {
    forall s: set<int> :: (forall e :: e in links && Crosses(e, s) ==> e.a in sea || e.b in sea) ==>
      if v in s then d <= s else d !! s
  }

  // The vertices that links lead to from v without touching the sea.
  lemma Island(links: set<Link>, vertices: set<int>, sea: set<int>, v: int) returns (d: set<int>)
    requires Within(links, vertices) && v in vertices - sea
    ensures v in d && d <= vertices - sea && ClosedIsland(links, sea, d) && Unsplit(links, sea, d, v)
  {
    d := {v};
    while !ClosedIsland(links, sea, d)
      invariant v in d && d <= vertices - sea && Unsplit(links, sea, d, v)
      decreases vertices - d
    {
      var e :| e in links && Crosses(e, d) && !(e.a in sea || e.b in sea);
      var x := if e.a in d then e.b else e.a;
      var d' := d + {x};
      forall s: set<int> | forall f :: f in links && Crosses(f, s) ==> f.a in sea || f.b in sea
        ensures if v in s then d' <= s else d' !! s
      {
        assert !Crosses(e, s);
      }
      d := d';
    }
  }

  ghost predicate LightestCrossing(g: Graph, known: set<int>, u: int, v: int)
    requires Symmetric(g)
  {
    && u in known && v !in known && Adjacent(g, u, v)
    && forall x, y :: x in known && y !in known && Adjacent(g, x, y) ==> g[u][v] <= g[x][y]
  }

  lemma JoinFacts(g: Graph, i: int, j: int)
    requires Symmetric(g) && Adjacent(g, i, j)
    ensures var e := Join(i, j); e.a < e.b && Adjacent(g, e.a, e.b) && Weight(g, e) == g[i][j]
    ensures forall s :: Crosses(Join(i, j), s) <==> (i in s) != (j in s)
  {
  }

  // After swapping f for e, a cut that only f crossed is crossed by e.
  lemma SwapConnects(vertices: set<int>, known: set<int>, tree: set<Link>, part: set<Link>, d: set<int>, e: Link,
    f: Link, u: int, v: int)
    requires part <= tree && Within(part, known) && Connects(part, known) && known <= vertices
    requires Within(tree, vertices) && Connects(tree, vertices)
    requires u in known && v in d && d !! known && Unsplit(tree, known, d, v)
    requires e == Join(u, v)
    requires f in tree && Crosses(f, d) && (f.a in known || f.b in known)
    ensures Connects(tree - {f} + {e}, vertices)
  {
    var tree' := tree - {f} + {e};
    forall s | s < vertices && s != {} ensures CrossedBy(s, tree') {
      assert CrossedBy(s, tree);
      var h :| h in tree && Crosses(h, s);
      if h == f && !exists h' :: h' in tree && h' != f && Crosses(h', s) {
        KnownUnsplit(known, part, f, s);
        assert if v in s then d <= s else d !! s;
        assert Crosses(e, s);
        assert e in tree';
      } else {
        var h' :| h' in tree && h' != f && Crosses(h', s);
        assert h' in tree';
      }
    }
  }

  lemma KnownUnsplit(known: set<int>, part: set<Link>, f: Link, s: set<int>)
    requires Within(part, known) && Connects(part, known)
    requires forall h :: h in part ==> !Crosses(h, s)
    ensures known <= s || known !! s
  {
    var t := s * known;
    if t == known {
      assert known <= s;
    } else if t != {} {
      assert CrossedBy(t, part);
      var h :| h in part && Crosses(h, t);
      assert Crosses(h, s);
    } else {
      assert forall x :: x in known && x in s ==> x in t;
    }
  }

  lemma SwapIsTree(g: Graph, vertices: set<int>, tree: set<Link>, e: Link, f: Link)
    requires Symmetric(g) && IsSpanningTree(g, vertices, tree) && e !in tree && f in tree
    requires e.a < e.b && Adjacent(g, e.a, e.b) && e.a in vertices && e.b in vertices
    requires Connects(tree - {f} + {e}, vertices) && Weight(g, e) <= Weight(g, f)
    ensures IsSpanningTree(g, vertices, tree - {f} + {e})
    ensures TotalWeight(g, tree - {f} + {e}) <= TotalWeight(g, tree)
  {
    var better := tree - {f} + {e};
    TotalWeightRemove(g, tree, f);
    TotalWeightRemove(g, better, e);
    assert better - {e} == tree - {f};
  }

  lemma LightestIsLighter(g: Graph, known: set<int>, u: int, v: int, f: Link)
    requires Symmetric(g) && LightestCrossing(g, known, u, v) && Adjacent(g, f.a, f.b) && Crosses(f, known)
    ensures g[u][v] <= Weight(g, f)
  {
    var x, y := if f.a in known then f.a else f.b, if f.a in known then f.b else f.a;
    assert Adjacent(g, x, y);
  }

  lemma Exchange(g: Graph, vertices: set<int>, known: set<int>, part: set<Link>, tree: set<Link>, u: int, v: int)
    returns (better: set<Link>)
    requires Symmetric(g) && IsSpanningTree(g, vertices, tree) && part <= tree
    requires Within(part, known) && Connects(part, known) && known <= vertices
    requires v in vertices && LightestCrossing(g, known, u, v)
    ensures IsSpanningTree(g, vertices, better) && part + {Join(u, v)} <= better
    ensures TotalWeight(g, better) <= TotalWeight(g, tree)
  {
    var e := Join(u, v);
    JoinFacts(g, u, v);
    better := tree;
    if e !in tree {
      var d := Island(tree, vertices, known, v);
      assert u in vertices && u !in d;
      assert CrossedBy(d, tree);
      var f :| f in tree && Crosses(f, d);
      assert Crosses(f, known) && f !in part;
      LightestIsLighter(g, known, u, v, f);
      SwapConnects(vertices, known, tree, part, d, e, f, u, v);
      SwapIsTree(g, vertices, tree, e, f);
      better := tree - {f} + {e};
    }
  }

  ghost predicate HasExtension(g: Graph, vertices: set<int>, part: set<Link>, t: set<Link>)
    requires Symmetric(g)
  {
    exists t' :: IsSpanningTree(g, vertices, t') && part <= t' && TotalWeight(g, t') <= TotalWeight(g, t)
  }

  // Every spanning tree can be traded for one at most as heavy that contains part.
  ghost predicate Extendable(g: Graph, vertices: set<int>, part: set<Link>)
    requires Symmetric(g)
  {
    forall t {:trigger HasExtension(g, vertices, part, t)} :: IsSpanningTree(g, vertices, t) ==>
      HasExtension(g, vertices, part, t)
  }

  lemma ExtendByLightest(g: Graph, vertices: set<int>, known: set<int>, part: set<Link>, u: int, v: int)
    requires Symmetric(g) && Extendable(g, vertices, part)
    requires Within(part, known) && Connects(part, known) && known <= vertices
    requires v in vertices && LightestCrossing(g, known, u, v)
    ensures Extendable(g, vertices, part + {Join(u, v)})
  {
    forall t | IsSpanningTree(g, vertices, t) ensures HasExtension(g, vertices, part + {Join(u, v)}, t) {
      assert HasExtension(g, vertices, part, t);
      var t1 :| IsSpanningTree(g, vertices, t1) && part <= t1 && TotalWeight(g, t1) <= TotalWeight(g, t);
      var t2 := Exchange(g, vertices, known, part, t1, u, v);
    }
  }

  lemma ExtendableTreeIsMinimum(g: Graph, vertices: set<int>, links: set<Link>)
    requires Symmetric(g) && IsSpanningTree(g, vertices, links) && Extendable(g, vertices, links)
    ensures IsMinimumSpanningTree(g, vertices, links)
  {
    forall t | IsSpanningTree(g, vertices, t) ensures TotalWeight(g, links) <= TotalWeight(g, t) {
      assert HasExtension(g, vertices, links, t);
      var t' :| IsSpanningTree(g, vertices, t') && links <= t' && TotalWeight(g, t') <= TotalWeight(g, t);
      SameSize(links, t');
    }
  }

  lemma SameSize(s: set<Link>, t: set<Link>)
    requires s <= t && |s| == |t|
    ensures s == t
  {
    assert |t - s| == |t| - |s|;
  }

  // A leaf hung on a connected set keeps it connected.
  lemma AttachConnects(known: set<int>, part: set<Link>, u: int, v: int)
    requires Within(part, known) && Connects(part, known) && u in known && v !in known
    ensures Connects(part + {Join(u, v)}, known + {v})
  {
    forall s | s < known + {v} && s != {} ensures CrossedBy(s, part + {Join(u, v)}) {
      var t := s - {v};
      if t != {} && t != known {
        assert CrossedBy(t, part);
        var h :| h in part && Crosses(h, t);
        assert Crosses(h, s);
      } else {
        assert Crosses(Join(u, v), s);
      }
    }
  }
}
