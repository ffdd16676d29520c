/**
 * The heuristics that settle an ambiguous pair of crossing diagonals in the
 * similarity graph: each diagonal is weighted by the curve it lies on, by
 * how sparse its component is inside an 8x8 window, and by whether cutting
 * it would leave an island; the diagonals of least weight are removed.
 */
module Heuristics {
  import opened Results
  import opened Utils
  import opened Graphs

  /** Two crossing diagonals of a 2x2 block, in the order the block lists its edges. */
  datatype DiagonalPair = DiagonalPair(first: (Coord, Coord), second: (Coord, Coord))

  /** `_SPARSE_WINDOW_DIMS`: the window is 8 pixels wide and 8 high. */
  const SparseWindow: int := 8

  /** `_ISLAND_HEURISTIC_WEIGHT`. */
  const IslandBonus: int := 5

  /** The edge `e` joins `x` and `y`, either way round. */
  predicate Joins(e: (Coord, Coord), x: Coord, y: Coord) {
    (x == e.0 && y == e.1) || (x == e.1 && y == e.0)
  }

  /** `_weight_island`: cutting an edge at a valence-1 pixel would leave it isolated. */
  function WeightIsland(g: Graph<Coord>, u: Coord, v: Coord): (r: int)
    requires u in g && v in g
    ensures r == 0 || r == IslandBonus
    ensures r == IslandBonus <==> Degree(g, u) == 1 || Degree(g, v) == 1
  {
    if |g[u]| == 1 || |g[v]| == 1 then IslandBonus else 0
  }

  function Min(a: int, b: int): int {
    if a <= b then a else b
  }

  /** `_sparse_offset`: the shift that brings the edge's lower corner to window position `(3, 3)`. */
  function SparseOffset(u: Coord, v: Coord): Coord {
    Coord(SparseWindow / 2 - 1 - Min(u.x, v.x), SparseWindow / 2 - 1 - Min(u.y, v.y))
  }

  /** A pixel inside the sparse window placed by `off`. */
  predicate InWindow(n: Coord, off: Coord) {
    WithinBounds(n, SparseWindow, SparseWindow, off.x, off.y)
  }

  /**
   * The offset centres a diagonal edge: its endpoints land on window
   * positions 3 and 4 in each direction, the middle 2x2 of the window.
   */
  lemma SparseOffsetCentres(u: Coord, v: Coord)
    requires (v.x - u.x == 1 || u.x - v.x == 1) && (v.y - u.y == 1 || u.y - v.y == 1)
    ensures var off := SparseOffset(u, v);
            && 3 <= u.x + off.x <= 4 && 3 <= u.y + off.y <= 4
            && 3 <= v.x + off.x <= 4 && 3 <= v.y + off.y <= 4
            && u.x + off.x != v.x + off.x && u.y + off.y != v.y + off.y
            && InWindow(u, off) && InWindow(v, off)
  {
  }

  /**
   * One pass of the inner loop of `_weight_sparse` over the neighbours of
   * `node`: each in-window neighbour not yet found is found and pushed, and
   * nothing else is.
   */
  method VisitSparseNeighbours(g: Graph<Coord>, node: Coord, off: Coord, found: set<Coord>, nodes: seq<Coord>)
    returns (found': set<Coord>, nodes': seq<Coord>)
    requires node in g && g[node] <= g.Keys && found <= g.Keys
    ensures found' == found + set m | m in g[node] && InWindow(m, off)
    ensures found' <= g.Keys
    ensures forall n :: n in found' - found ==> n in nodes'
    ensures forall n :: n in nodes' ==> n in nodes || n in found' - found
    ensures forall n :: n in nodes ==> n in nodes'
    ensures found' == found ==> nodes' == nodes
  {
    found', nodes' := found, nodes;
    var todo := g[node];
    while todo != {}
      invariant todo <= g[node]
      invariant found <= found' <= g.Keys
      invariant forall m :: m in g[node] - todo && InWindow(m, off) ==> m in found'
      invariant forall n :: n in found' - found ==> n in g[node] && InWindow(n, off) && n in nodes'
      invariant forall n :: n in nodes' ==> n in nodes || n in found' - found
      invariant forall n :: n in nodes ==> n in nodes'
      invariant found' == found ==> nodes' == nodes
      decreases todo
    {
      var m :| m in todo;
      todo := todo - {m};
      if m !in found' && InWindow(m, off) {
        found' := found' + {m};
        nodes' := nodes' + [m];
      }
    }
  }

  /**
   * `found` holds both endpoints and every in-window neighbour of each of
   * its pixels: the search of `_weight_sparse` cannot leave it.
   */
  predicate SparseClosed(g: Graph<Coord>, u: Coord, v: Coord, found: set<Coord>) {
    && u in found && v in found
    && forall n, m :: n in found && n in g && m in g[n] && InWindow(m, SparseOffset(u, v)) ==> m in found
  }

  /** The pixels in the window reachable from the edge `u`-`v`: those of `g` in every closed set. */
  ghost function SparseReach(g: Graph<Coord>, u: Coord, v: Coord): set<Coord> {
    set n | n in g && forall F :: SparseClosed(g, u, v, F) ==> n in F
  }

  /** The value of the sparse-pixels heuristic: minus the number of pixels reachable in the window. */
  ghost function SparseWeight(g: Graph<Coord>, u: Coord, v: Coord): int {
    -|SparseReach(g, u, v)|
  }

  /** A closed set of pixels of `g` inside every closed set is the reachable set. */
  lemma LeastSparseClosed(g: Graph<Coord>, u: Coord, v: Coord, found: set<Coord>)
    requires found <= g.Keys && SparseClosed(g, u, v, found)
    requires forall F :: SparseClosed(g, u, v, F) ==> found <= F
    ensures found == SparseReach(g, u, v)
  {
  }

  /**
   * `_weight_sparse`: a search from both endpoints through neighbours that
   * lie in the window; the weight is minus the number of pixels reached,
   * which are the endpoints and the in-window pixels reachable from them.
   */
  method WeightSparse(g: Graph<Coord>, u: Coord, v: Coord) returns (w: int, found: set<Coord>)
    requires Simple(g) && HasEdge(g, u, v)
    ensures found == SparseReach(g, u, v) && w == SparseWeight(g, u, v)
    ensures w == -|found| && w <= -2
    ensures {u, v} <= found <= g.Keys && SparseClosed(g, u, v, found)
    ensures forall n :: n in found && n != u && n != v ==> InWindow(n, SparseOffset(u, v))
  {
    var off := SparseOffset(u, v);
    var nodes := [u, v];
    found := {u, v};
    ghost var done: set<Coord> := {};
    while |nodes| > 0
      invariant {u, v} <= found <= g.Keys
      invariant forall n :: n in found && n != u && n != v ==> InWindow(n, off)
      invariant forall n :: n in nodes ==> n in found
      invariant done <= g.Keys
      invariant forall n :: n in found ==> n in done || n in nodes
      invariant forall n, m :: n in done && m in g[n] && InWindow(m, off) ==> m in found
      invariant forall F :: SparseClosed(g, u, v, F) ==> found <= F
      decreases g.Keys - found, |nodes|
    {
      var node := nodes[|nodes| - 1];
      var rest := nodes[..|nodes| - 1];
      assert forall n :: n in nodes ==> n in rest || n == node;
      ghost var found0 := found;
      found, nodes := VisitSparseNeighbours(g, node, off, found, rest);
      forall F | SparseClosed(g, u, v, F)
        ensures found <= F
      {
        assert node in F;
      }
      done := done + {node};
      if found != found0 {
        assert found0 < found;
        var m :| m in found && m !in found0;
        assert m in (g.Keys - found0) - (g.Keys - found);
      }
    }
    LeastSparseClosed(g, u, v, found);
    assert |{u, v}| == 2;
    CardMono({u, v}, found);
    w := -|found|;
  }

  /** Every pair of adjacent pixels, written with its endpoints sorted. */
  function EdgeSet(g: Graph<Coord>): set<(Coord, Coord)> {
    set n, m | n in g && m in g[n] :: SortedVertices(n, m)
  }

  /** A valence-2 pixel `n` carries the curve on: both its edges are in `curve`. */
  predicate ContinuesAt(g: Graph<Coord>, curve: set<(Coord, Coord)>, n: Coord) {
    n in g && |g[n]| == 2 ==> forall m :: m in g[n] ==> SortedVertices(n, m) in curve
  }

  /** The edges at `n`, each written with its endpoints sorted. */
  function NodeEdges(g: Graph<Coord>, n: Coord): set<(Coord, Coord)>
    requires n in g
  {
    set m | m in g[n] :: SortedVertices(n, m)
  }

  /** The pixels at either end of an edge of `curve`. */
  function Ends(curve: set<(Coord, Coord)>): set<Coord> {
    (set e | e in curve :: e.0) + (set e | e in curve :: e.1)
  }

  /**
   * `curve` holds the edge `u`-`v` and, at every valence-2 pixel at the end
   * of one of its edges, both edges there: the search of `_weight_curve`
   * cannot leave it.
   */
  predicate CurveClosed(g: Graph<Coord>, u: Coord, v: Coord, curve: set<(Coord, Coord)>) {
    && SortedVertices(u, v) in curve
    && forall e :: e in curve ==> ContinuesAt(g, curve, e.0) && ContinuesAt(g, curve, e.1)
  }

  /** The curve through the edge `u`-`v`: the edges of `g` in every closed set. */
  ghost function CurveOf(g: Graph<Coord>, u: Coord, v: Coord): set<(Coord, Coord)> {
    set e | e in EdgeSet(g) && forall C :: CurveClosed(g, u, v, C) ==> e in C
  }

  /** The value of the curves heuristic: the number of edges on the curve through the edge. */
  ghost function CurveWeight(g: Graph<Coord>, u: Coord, v: Coord): int {
    |CurveOf(g, u, v)|
  }

  /** A closed set of edges of `g` inside every closed set is the curve. */
  lemma LeastCurveClosed(g: Graph<Coord>, u: Coord, v: Coord, curve: set<(Coord, Coord)>)
    requires curve <= EdgeSet(g) && CurveClosed(g, u, v, curve)
    requires forall C :: CurveClosed(g, u, v, C) ==> curve <= C
    ensures curve == CurveOf(g, u, v)
  {
  }

  /** Every closed set continues at the end of each edge it holds. */
  lemma ClosedAtEnds(g: Graph<Coord>, u: Coord, v: Coord, C: set<(Coord, Coord)>, curve: set<(Coord, Coord)>, n: Coord)
    requires CurveClosed(g, u, v, C) && curve <= C && n in Ends(curve)
    ensures ContinuesAt(g, C, n)
  {
    var e :| e in curve && (e.0 == n || e.1 == n);
  }

  /**
   * The loop over `connected_edges` of `_weight_curve` at a valence-2
   * pixel: each of its two edges not yet seen is added, and its far end is
   * pushed. Afterwards the curve is the old one with both edges at `node`.
   */
  method ContinueCurve(g: Graph<Coord>, node: Coord, curve: set<(Coord, Coord)>, nodes: seq<Coord>)
    returns (curve': set<(Coord, Coord)>, nodes': seq<Coord>)
    requires node in g && |g[node]| == 2
    requires forall m :: m in g[node] ==> m in g && node in g[m]
    ensures curve' == curve + NodeEdges(g, node)
    ensures curve' <= curve + EdgeSet(g)
    ensures forall e :: e in curve' - curve ==> HasEdge(g, e.0, e.1) && (e.0 == node || e.0 in nodes') && (e.1 == node || e.1 in nodes')
    ensures forall n :: n in nodes' ==> n in nodes || n in g[node]
    ensures forall n :: n in nodes ==> n in nodes'
    ensures curve' == curve ==> nodes' == nodes
  {
    var a :| a in g[node];
    TwoElements(g[node], a);
    var b :| b in g[node] - {a};
    assert g[node] == {a, b};
    curve', nodes' := curve, nodes;
    var ea := SortedVertices(node, a);
    if ea !in curve' {
      assert ea in EdgeSet(g);
      curve' := curve' + {ea};
      nodes' := nodes' + [a];
    }
    var eb := SortedVertices(node, b);
    if eb !in curve' {
      assert eb in EdgeSet(g);
      curve' := curve' + {eb};
      nodes' := nodes' + [b];
    }
    assert NodeEdges(g, node) == {ea, eb};
  }

  /**
   * The loop invariant of `_weight_curve`: `done` holds the pixels already
   * popped, at which the curve is continued; every endpoint of a curve edge
   * is done or still to be popped.
   */
  ghost predicate CurveLoop(g: Graph<Coord>, u: Coord, v: Coord, curve: set<(Coord, Coord)>, nodes: seq<Coord>, done: set<Coord>)
    requires u in g && v in g
  {
    && SortedVertices(u, v) in curve
    && (forall e :: e in curve ==> HasEdge(g, e.0, e.1))
    && (forall n :: n in nodes ==> n in g)
    && (forall e :: e in curve ==> (e.0 in done || e.0 in nodes) && (e.1 in done || e.1 in nodes))
    && (forall n :: n in done ==> ContinuesAt(g, curve, n))
    && (|g[u]| != 2 && |g[v]| != 2 ==> curve == {SortedVertices(u, v)} && forall n :: n in nodes ==> |g[n]| != 2)
  }

  /** Popping a pixel whose valence is not 2 keeps the invariant. */
  lemma CurveLoopSkip(g: Graph<Coord>, u: Coord, v: Coord, curve: set<(Coord, Coord)>, nodes: seq<Coord>, done: set<Coord>)
    requires u in g && v in g && |nodes| > 0 && CurveLoop(g, u, v, curve, nodes, done)
    requires |g[nodes[|nodes| - 1]]| != 2
    ensures CurveLoop(g, u, v, curve, nodes[..|nodes| - 1], done + {nodes[|nodes| - 1]})
  {
    var node, rest := nodes[|nodes| - 1], nodes[..|nodes| - 1];
    assert forall n :: n in nodes <==> n in rest || n == node;
  }

  /** Popping a valence-2 pixel and continuing the curve through it keeps the invariant. */
  lemma CurveLoopContinue(g: Graph<Coord>, u: Coord, v: Coord, curve: set<(Coord, Coord)>, nodes: seq<Coord>, done: set<Coord>,
                          curve': set<(Coord, Coord)>, nodes': seq<Coord>)
    requires u in g && v in g && |nodes| > 0 && CurveLoop(g, u, v, curve, nodes, done)
    requires var node := nodes[|nodes| - 1];
             && |g[node]| == 2
             && curve <= curve'
             && (forall m :: m in g[node] ==> SortedVertices(node, m) in curve')
             && (forall e :: e in curve' - curve ==> HasEdge(g, e.0, e.1) && (e.0 == node || e.0 in nodes') && (e.1 == node || e.1 in nodes'))
             && (forall n :: n in nodes' ==> n in nodes[..|nodes| - 1] || n in g)
             && (forall n :: n in nodes[..|nodes| - 1] ==> n in nodes')
    ensures CurveLoop(g, u, v, curve', nodes', done + {nodes[|nodes| - 1]})
  {
    var node, rest := nodes[|nodes| - 1], nodes[..|nodes| - 1];
    assert forall n :: n in nodes <==> n in rest || n == node;
    forall n | n in done + {node}
      ensures ContinuesAt(g, curve', n)
    {
      if n != node {
        assert ContinuesAt(g, curve, n);
      }
    }
  }

  /**
   * The other half of the loop invariant of `_weight_curve`: the curve so
   * far lies inside every closed set, and every pixel still to be popped is
   * the end of one of its edges.
   */
  ghost predicate CurveLeast(g: Graph<Coord>, u: Coord, v: Coord, curve: set<(Coord, Coord)>, nodes: seq<Coord>) {
    && curve <= EdgeSet(g)
    && (forall n :: n in nodes ==> n in Ends(curve))
    && forall C :: CurveClosed(g, u, v, C) ==> curve <= C
  }

  /** Continuing the curve at a popped valence-2 pixel keeps it inside every closed set. */
  lemma CurveLeastContinue(g: Graph<Coord>, u: Coord, v: Coord, curve: set<(Coord, Coord)>, nodes: seq<Coord>,
                           curve': set<(Coord, Coord)>, nodes': seq<Coord>)
    requires |nodes| > 0 && CurveLeast(g, u, v, curve, nodes)
    requires var node := nodes[|nodes| - 1];
             && node in g && |g[node]| == 2
             && curve' == curve + NodeEdges(g, node) && curve' <= curve + EdgeSet(g)
             && forall n :: n in nodes' ==> n in nodes[..|nodes| - 1] || n in g[node]
    ensures CurveLeast(g, u, v, curve', nodes')
  {
    var node := nodes[|nodes| - 1];
    assert node in nodes;
    forall C | CurveClosed(g, u, v, C)
      ensures curve' <= C
    {
      ClosedAtEnds(g, u, v, C, curve, node);
    }
    forall n | n in nodes'
      ensures n in Ends(curve')
    {
      if n in g[node] {
        var e := SortedVertices(node, n);
        assert e in curve' && (e.0 == n || e.1 == n);
      } else {
        assert n in nodes;
        var e :| e in curve && (e.0 == n || e.1 == n);
        assert e in curve';
      }
    }
  }

  /**
   * `_weight_curve` with the edge set seeded with the edge itself: the
   * number of edges on the curve through the edge, followed across
   * valence-2 pixels. The curve holds the edge, only edges of the graph,
   * is closed, and lies inside every closed set, so it is exactly the
   * curve through the edge.
   */
  method WeightCurve(g: Graph<Coord>, u: Coord, v: Coord) returns (w: int, curve: set<(Coord, Coord)>)
    requires Simple(g) && HasEdge(g, u, v)
    ensures curve == CurveOf(g, u, v) && w == CurveWeight(g, u, v)
    ensures w == |curve| && 1 <= w
    ensures SortedVertices(u, v) in curve
    ensures forall e :: e in curve ==> HasEdge(g, e.0, e.1)
    ensures CurveClosed(g, u, v, curve)
    ensures |g[u]| != 2 && |g[v]| != 2 ==> w == 1
  {
    curve := {SortedVertices(u, v)};
    var nodes := [u, v];
    ghost var done: set<Coord> := {};
    assert SortedVertices(u, v) in EdgeSet(g);
    while |nodes| > 0
      invariant CurveLoop(g, u, v, curve, nodes, done)
      invariant CurveLeast(g, u, v, curve, nodes)
      decreases EdgeSet(g) - curve, |nodes|
    {
      var node := nodes[|nodes| - 1];
      var rest := nodes[..|nodes| - 1];
      if |g[node]| == 2 {
        ghost var curve0, nodes0 := curve, nodes;
        curve, nodes := ContinueCurve(g, node, curve, rest);
        CurveLoopContinue(g, u, v, curve0, nodes0, done, curve, nodes);
        CurveLeastContinue(g, u, v, curve0, nodes0, curve, nodes);
        FewerLeft(EdgeSet(g), curve0, curve);
      } else {
        CurveLoopSkip(g, u, v, curve, nodes, done);
        assert forall n :: n in rest ==> n in nodes;
        nodes := rest;
      }
      done := done + {node};
    }
    LeastCurveClosed(g, u, v, curve);
    w := |curve|;
  }

  /** Growing a set by members of `all` leaves fewer of `all` outside it, unless it did not grow. */
  lemma FewerLeft<T>(all: set<T>, a: set<T>, b: set<T>)
    requires a <= b <= a + all
    ensures b == a || all - b < all - a
  {
    if b != a {
      var e :| e in b && e !in a;
      assert e in (all - a) - (all - b);
    }
  }

  /** An item of the set `_weight_curve` counts as written: a pixel or an edge. */
  datatype CurveItem = PixelItem(p: Coord) | EdgeItem(e: (Coord, Coord))

  /** The edges of `curve` as items of the set `_weight_curve` counts. */
  function EdgeItems(curve: set<(Coord, Coord)>): set<CurveItem> {
    set e | e in curve :: EdgeItem(e)
  }

  /** Each edge is its own item. */
  lemma {:induction false} EdgeItemsCard(curve: set<(Coord, Coord)>)
    ensures |EdgeItems(curve)| == |curve|
    decreases curve
  {
    if curve != {} {
      var e :| e in curve;
      EdgeItemsCard(curve - {e});
      assert EdgeItems(curve) == EdgeItems(curve - {e}) + {EdgeItem(e)};
    }
  }

  /** Two different pixels and some edges make that many items plus two. */
  lemma ItemsCard(u: Coord, v: Coord, curve: set<(Coord, Coord)>)
    requires u != v
    ensures |{PixelItem(u), PixelItem(v)} + EdgeItems(curve)| == |curve| + 2
  {
    EdgeItemsCard(curve);
    assert {PixelItem(u), PixelItem(v)} * EdgeItems(curve) == {};
  }

  /**
   * The loop invariant of `_weight_curve` as written, whose edges lack the
   * seed edge `u`-`v` until the search continues at one of its endpoints.
   */
  ghost predicate AsWrittenLoop(g: Graph<Coord>, u: Coord, v: Coord, edges: set<(Coord, Coord)>, nodes: seq<Coord>, done: set<Coord>)
    requires u in g && v in g
  {
    && CurveLoop(g, u, v, edges + {SortedVertices(u, v)}, nodes, done)
    && CurveLeast(g, u, v, edges + {SortedVertices(u, v)}, nodes)
    && (forall n :: n in done ==> ContinuesAt(g, edges, n))
    && (SortedVertices(u, v) in edges ==> |g[u]| == 2 || |g[v]| == 2)
  }

  /** The seed edge is among the edges at a pixel only when that pixel is one of its endpoints. */
  lemma SeedAtEndpoint(g: Graph<Coord>, u: Coord, v: Coord, node: Coord)
    requires node in g && SortedVertices(u, v) in NodeEdges(g, node)
    ensures node == u || node == v
  {
    var m :| m in g[node] && SortedVertices(u, v) == SortedVertices(node, m);
    assert {node, m} == {u, v};
  }

  /** Continuing at `node` keeps the search continued at every pixel already done. */
  lemma ContinuesKept(g: Graph<Coord>, edges: set<(Coord, Coord)>, done: set<Coord>, node: Coord, edges': set<(Coord, Coord)>)
    requires node in g && edges' == edges + NodeEdges(g, node)
    requires forall n :: n in done ==> ContinuesAt(g, edges, n)
    ensures forall n :: n in done + {node} ==> ContinuesAt(g, edges', n)
  {
    forall n | n in done + {node}
      ensures ContinuesAt(g, edges', n)
    {
      if n != node {
        assert ContinuesAt(g, edges, n);
      }
    }
  }

  /** Continuing at a popped valence-2 pixel keeps the invariant of the search as written. */
  lemma AsWrittenContinue(g: Graph<Coord>, u: Coord, v: Coord, edges: set<(Coord, Coord)>, nodes: seq<Coord>, done: set<Coord>,
                          edges': set<(Coord, Coord)>, nodes': seq<Coord>)
    requires Simple(g) && HasEdge(g, u, v) && |nodes| > 0 && AsWrittenLoop(g, u, v, edges, nodes, done)
    requires var node := nodes[|nodes| - 1];
             && |g[node]| == 2
             && edges' == edges + NodeEdges(g, node) && edges' <= edges + EdgeSet(g)
             && (forall e :: e in edges' - edges ==> HasEdge(g, e.0, e.1) && (e.0 == node || e.0 in nodes') && (e.1 == node || e.1 in nodes'))
             && (forall n :: n in nodes' ==> n in nodes[..|nodes| - 1] || n in g[node])
             && (forall n :: n in nodes[..|nodes| - 1] ==> n in nodes')
    ensures AsWrittenLoop(g, u, v, edges', nodes', done + {nodes[|nodes| - 1]})
  {
    var node := nodes[|nodes| - 1];
    var seed := SortedVertices(u, v);
    assert node in nodes;
    var curve, curve' := edges + {seed}, edges' + {seed};
    assert curve + NodeEdges(g, node) == curve';
    assert curve' - curve <= edges' - edges;
    CurveLoopContinue(g, u, v, curve, nodes, done, curve', nodes');
    CurveLeastContinue(g, u, v, curve, nodes, curve', nodes');
    if seed in edges' && seed !in edges {
      SeedAtEndpoint(g, u, v, node);
    }
    ContinuesKept(g, edges, done, node, edges');
  }

  /** Popping a pixel whose valence is not 2 keeps the invariant of the search as written. */
  lemma AsWrittenSkip(g: Graph<Coord>, u: Coord, v: Coord, edges: set<(Coord, Coord)>, nodes: seq<Coord>, done: set<Coord>)
    requires u in g && v in g && |nodes| > 0 && AsWrittenLoop(g, u, v, edges, nodes, done)
    requires |g[nodes[|nodes| - 1]]| != 2
    ensures AsWrittenLoop(g, u, v, edges, nodes[..|nodes| - 1], done + {nodes[|nodes| - 1]})
  {
    CurveLoopSkip(g, u, v, edges + {SortedVertices(u, v)}, nodes, done);
    assert forall n :: n in nodes[..|nodes| - 1] ==> n in nodes;
  }

  /** When the search as written ends, its edges are the curve if an endpoint has valence 2, and none otherwise. */
  lemma AsWrittenEnd(g: Graph<Coord>, u: Coord, v: Coord, edges: set<(Coord, Coord)>, done: set<Coord>)
    requires Simple(g) && HasEdge(g, u, v) && AsWrittenLoop(g, u, v, edges, [], done)
    ensures edges == if |g[u]| == 2 || |g[v]| == 2 then CurveOf(g, u, v) else {}
  {
    var seed := SortedVertices(u, v);
    LeastCurveClosed(g, u, v, edges + {seed});
    if |g[u]| == 2 || |g[v]| == 2 {
      assert u in done && v in done;
      assert ContinuesAt(g, edges, u) && ContinuesAt(g, edges, v);
      assert seed in edges;
      assert edges + {seed} == edges;
    }
  }

  /**
   * `_weight_curve` as written. The set starts as the edge's two pixels
   * rather than the edge; the search then adds edges exactly as
   * `WeightCurve` does, since no pixel equals an edge. The edge itself is
   * added only when the search continues at one of its endpoints, that is
   * when one has valence 2. The weight is therefore the number of edges on
   * the curve plus 2, or plus 1 when neither endpoint has valence 2, where
   * the curve is that one edge and the weight is 2.
   */
  method WeightCurveAsWritten(g: Graph<Coord>, u: Coord, v: Coord) returns (w: int, items: set<CurveItem>)
    requires Simple(g) && HasEdge(g, u, v)
    ensures items == {PixelItem(u), PixelItem(v)} + EdgeItems(if |g[u]| == 2 || |g[v]| == 2 then CurveOf(g, u, v) else {})
    ensures w == |items| && 2 <= w
    ensures w == CurveWeight(g, u, v) + (if |g[u]| == 2 || |g[v]| == 2 then 2 else 1)
    ensures |g[u]| != 2 && |g[v]| != 2 ==> w == 2
  {
    var edges: set<(Coord, Coord)> := {};
    var nodes := [u, v];
    ghost var done: set<Coord> := {};
    assert SortedVertices(u, v) in EdgeSet(g);
    while |nodes| > 0
      invariant AsWrittenLoop(g, u, v, edges, nodes, done)
      decreases EdgeSet(g) - edges, |nodes|
    {
      var node := nodes[|nodes| - 1];
      var rest := nodes[..|nodes| - 1];
      if |g[node]| == 2 {
        ghost var edges0, nodes0 := edges, nodes;
        edges, nodes := ContinueCurve(g, node, edges, rest);
        AsWrittenContinue(g, u, v, edges0, nodes0, done, edges, nodes);
        FewerLeft(EdgeSet(g), edges0, edges);
      } else {
        AsWrittenSkip(g, u, v, edges, nodes, done);
        nodes := rest;
      }
      done := done + {node};
    }
    AsWrittenEnd(g, u, v, edges, done);
    ItemsCard(u, v, edges);
    if |g[u]| != 2 && |g[v]| != 2 {
      LeastCurveClosed(g, u, v, {SortedVertices(u, v)});
    }
    items := {PixelItem(u), PixelItem(v)} + EdgeItems(edges);
    w := |items|;
  }

  /**
   * A lone diagonal whose endpoints have no other neighbours: the curve
   * through it is that one edge, but the weight as written is 2.
   */
  method LoneDiagonalCurveWeights() returns (asWritten: int, corrected: int)
    ensures asWritten == 2 && corrected == 1
  {
    var u, v := Coord(0, 0), Coord(1, 1);
    var g: Graph<Coord> := map[u := {v}, v := {u}];
    assert Simple(g) && HasEdge(g, u, v);
    var items, curve;
    asWritten, items := WeightCurveAsWritten(g, u, v);
    corrected, curve := WeightCurve(g, u, v);
  }

  /** The weight of the edge `u`-`v`: its curve, sparse-pixel and island weights summed. */
  ghost function EdgeWeight(g: Graph<Coord>, u: Coord, v: Coord): int
    requires u in g && v in g
  {
    CurveWeight(g, u, v) + SparseWeight(g, u, v) + WeightIsland(g, u, v)
  }

  /**
   * `_compute_single_weight`: the weight of an edge is its curve, sparse
   * and island weights summed, with the curve weight of `WeightCurve`, the
   * corrected form of `_weight_curve`.
   */
  method ComputeSingleWeight(g: Graph<Coord>, u: Coord, v: Coord) returns (w: int, curve: int, sparse: int, island: int)
    requires Simple(g) && HasEdge(g, u, v)
    ensures w == EdgeWeight(g, u, v)
    ensures curve == CurveWeight(g, u, v) && sparse == SparseWeight(g, u, v)
    ensures w == curve + sparse + island
    ensures 1 <= curve && sparse <= -2 && (island == 0 || island == IslandBonus)
    ensures island == IslandBonus <==> Degree(g, u) == 1 || Degree(g, v) == 1
  {
    var edges, reached;
    curve, edges := WeightCurve(g, u, v);
    sparse, reached := WeightSparse(g, u, v);
    island := WeightIsland(g, u, v);
    w := curve + sparse + island;
  }

  /**
   * `_compute_single_weight` with `_weight_curve` as written: the weight
   * with the corrected curve weight, plus 2, or plus 1 when neither
   * endpoint has valence 2.
   */
  method ComputeSingleWeightAsWritten(g: Graph<Coord>, u: Coord, v: Coord) returns (w: int)
    requires Simple(g) && HasEdge(g, u, v)
    ensures w == EdgeWeight(g, u, v) + (if |g[u]| == 2 || |g[v]| == 2 then 2 else 1)
  {
    var curve, items := WeightCurveAsWritten(g, u, v);
    var sparse, reached := WeightSparse(g, u, v);
    w := curve + sparse + WeightIsland(g, u, v);
  }

  /** Both diagonals of every pair are edges of `g`. */
  predicate PairsPresent(g: Graph<Coord>, pairs: seq<DiagonalPair>) {
    forall k :: 0 <= k < |pairs| ==>
      HasEdge(g, pairs[k].first.0, pairs[k].first.1) && HasEdge(g, pairs[k].second.0, pairs[k].second.1)
  }

  /** Whether the edge `x`-`y` is one the removal picks from `p`, whose diagonals weigh `wt`. */
  predicate Chosen(p: DiagonalPair, wt: (int, int), x: Coord, y: Coord) {
    var least := Min(wt.0, wt.1);
    (wt.0 == least && Joins(p.first, x, y)) || (wt.1 == least && Joins(p.second, x, y))
  }

  /** Some pair of `pairs` has the edge `x`-`y` chosen for removal. */
  predicate ChosenInAny(pairs: seq<DiagonalPair>, weights: seq<(int, int)>, x: Coord, y: Coord)
    requires |weights| == |pairs|
  {
    exists k :: 0 <= k < |pairs| && Chosen(pairs[k], weights[k], x, y)
  }

  /** No diagonal is shared between two pairs, and the two diagonals of a pair are different edges. */
  predicate PairsDistinct(pairs: seq<DiagonalPair>) {
    && (forall k :: 0 <= k < |pairs| ==> !Joins(pairs[k].first, pairs[k].second.0, pairs[k].second.1))
    && forall i, j :: 0 <= i < j < |pairs| ==>
         && !Joins(pairs[i].first, pairs[j].first.0, pairs[j].first.1)
         && !Joins(pairs[i].first, pairs[j].second.0, pairs[j].second.1)
         && !Joins(pairs[i].second, pairs[j].first.0, pairs[j].first.1)
         && !Joins(pairs[i].second, pairs[j].second.0, pairs[j].second.1)
  }

  /** The second loop of `apply_heuristics`: from each pair, remove the diagonals of minimum weight. */
  function RemoveLightest(g: Graph<Coord>, pairs: seq<DiagonalPair>, weights: seq<(int, int)>): Result<Graph<Coord>>
    requires |weights| == |pairs|
    decreases |pairs|
  {
    if |pairs| == 0 then Ok(g)
    else
      var p, wt := pairs[0], weights[0];
      var least := Min(wt.0, wt.1);
      var g1 :- if wt.0 == least then RemoveEdge(g, p.first.0, p.first.1) else Ok(g);
      var g2 :- if wt.1 == least then RemoveEdge(g1, p.second.0, p.second.1) else Ok(g1);
      RemoveLightest(g2, pairs[1..], weights[1..])
  }

  /** An edge is chosen from some pair exactly when it is chosen from the first or from one of the rest. */
  lemma ChosenInAnyCons(pairs: seq<DiagonalPair>, weights: seq<(int, int)>, x: Coord, y: Coord)
    requires |weights| == |pairs| && 0 < |pairs|
    ensures ChosenInAny(pairs, weights, x, y) <==>
              Chosen(pairs[0], weights[0], x, y) || ChosenInAny(pairs[1..], weights[1..], x, y)
  {
    if ChosenInAny(pairs, weights, x, y) {
      var k :| 0 <= k < |pairs| && Chosen(pairs[k], weights[k], x, y);
      if k > 0 {
        assert pairs[1..][k - 1] == pairs[k] && weights[1..][k - 1] == weights[k];
      }
    }
    if ChosenInAny(pairs[1..], weights[1..], x, y) {
      var k :| 0 <= k < |pairs[1..]| && Chosen(pairs[1..][k], weights[1..][k], x, y);
      assert pairs[1..][k] == pairs[k + 1] && weights[1..][k] == weights[k + 1];
    }
  }

  /** The later pairs stay distinct among themselves. */
  lemma PairsDistinctTail(pairs: seq<DiagonalPair>)
    requires 0 < |pairs| && PairsDistinct(pairs)
    ensures PairsDistinct(pairs[1..])
  {
    var t := pairs[1..];
    assert forall k :: 0 <= k < |t| ==> t[k] == pairs[k + 1];
  }

  /** Removing only diagonals of the first pair leaves every diagonal of the later pairs in place. */
  lemma PairsPresentTail(g: Graph<Coord>, g': Graph<Coord>, pairs: seq<DiagonalPair>)
    requires 0 < |pairs| && PairsPresent(g, pairs) && PairsDistinct(pairs)
    requires forall x, y :: HasEdge(g, x, y) && !Joins(pairs[0].first, x, y) && !Joins(pairs[0].second, x, y) ==> HasEdge(g', x, y)
    ensures PairsPresent(g', pairs[1..])
  {
    var t := pairs[1..];
    forall k | 0 <= k < |t|
      ensures HasEdge(g', t[k].first.0, t[k].first.1) && HasEdge(g', t[k].second.0, t[k].second.1)
    {
      assert t[k] == pairs[k + 1];
      assert 0 < k + 1;
    }
  }

  /**
   * The removal succeeds when every diagonal is present and none is shared,
   * keeps every node, and removes exactly the chosen diagonals: at least one
   * of each pair, both when their weights tie.
   */
  lemma {:induction false} RemoveLightestSpec(g: Graph<Coord>, pairs: seq<DiagonalPair>, weights: seq<(int, int)>)
    requires |weights| == |pairs|
    ensures PairsPresent(g, pairs) && PairsDistinct(pairs) ==> RemoveLightest(g, pairs, weights).Ok?
    ensures var r := RemoveLightest(g, pairs, weights);
            r.Ok? ==>
              && r.value.Keys == g.Keys
              && forall x, y :: HasEdge(r.value, x, y) <==> HasEdge(g, x, y) && !ChosenInAny(pairs, weights, x, y)
    decreases |pairs|
  {
    if |pairs| > 0 {
      var p, wt := pairs[0], weights[0];
      var least := Min(wt.0, wt.1);
      var r1 := if wt.0 == least then RemoveEdge(g, p.first.0, p.first.1) else Ok(g);
      if r1.Ok? {
        var g1 := r1.value;
        var r2 := if wt.1 == least then RemoveEdge(g1, p.second.0, p.second.1) else Ok(g1);
        if PairsPresent(g, pairs) && PairsDistinct(pairs) {
          assert r2.Ok?;
        }
        if r2.Ok? {
          var g2 := r2.value;
          assert forall x, y :: HasEdge(g2, x, y) <==> HasEdge(g, x, y) && !Chosen(p, wt, x, y);
          if PairsPresent(g, pairs) && PairsDistinct(pairs) {
            PairsDistinctTail(pairs);
            PairsPresentTail(g, g2, pairs);
          }
          RemoveLightestSpec(g2, pairs[1..], weights[1..]);
          forall x, y
            ensures ChosenInAny(pairs, weights, x, y) <==> Chosen(p, wt, x, y) || ChosenInAny(pairs[1..], weights[1..], x, y)
          {
            ChosenInAnyCons(pairs, weights, x, y);
          }
        }
      }
    }
  }

  /** Each pair loses a diagonal, and the other one survives only when it is strictly heavier. */
  lemma RemovedPerPair(g: Graph<Coord>, pairs: seq<DiagonalPair>, weights: seq<(int, int)>, k: int)
    requires |weights| == |pairs| && 0 <= k < |pairs|
    requires RemoveLightest(g, pairs, weights).Ok?
    ensures var r := RemoveLightest(g, pairs, weights).value;
            !HasEdge(r, pairs[k].first.0, pairs[k].first.1) || !HasEdge(r, pairs[k].second.0, pairs[k].second.1)
    ensures var r := RemoveLightest(g, pairs, weights).value;
            weights[k].0 == weights[k].1 ==>
              !HasEdge(r, pairs[k].first.0, pairs[k].first.1) && !HasEdge(r, pairs[k].second.0, pairs[k].second.1)
  {
    RemoveLightestSpec(g, pairs, weights);
    assert Chosen(pairs[k], weights[k], pairs[k].first.0, pairs[k].first.1)
        || Chosen(pairs[k], weights[k], pairs[k].second.0, pairs[k].second.1);
  }

  /** With every diagonal present and none shared, a diagonal survives exactly when it is strictly heavier than the other of its pair. */
  lemma LighterRemoved(g: Graph<Coord>, pairs: seq<DiagonalPair>, weights: seq<(int, int)>, k: int)
    requires |weights| == |pairs| && 0 <= k < |pairs|
    requires PairsPresent(g, pairs) && PairsDistinct(pairs)
    ensures RemoveLightest(g, pairs, weights).Ok?
    ensures var r := RemoveLightest(g, pairs, weights).value;
            && (HasEdge(r, pairs[k].first.0, pairs[k].first.1) <==> weights[k].1 < weights[k].0)
            && (HasEdge(r, pairs[k].second.0, pairs[k].second.1) <==> weights[k].0 < weights[k].1)
  {
    RemoveLightestSpec(g, pairs, weights);
    ChosenOnlyFrom(pairs, weights, k);
  }

  /** A diagonal of pair `k` is chosen from some pair exactly when pair `k`'s weights make it the lighter or equal one. */
  lemma ChosenOnlyFrom(pairs: seq<DiagonalPair>, weights: seq<(int, int)>, k: int)
    requires |weights| == |pairs| && 0 <= k < |pairs| && PairsDistinct(pairs)
    ensures ChosenInAny(pairs, weights, pairs[k].first.0, pairs[k].first.1) <==> weights[k].0 <= weights[k].1
    ensures ChosenInAny(pairs, weights, pairs[k].second.0, pairs[k].second.1) <==> weights[k].1 <= weights[k].0
  {
    var p := pairs[k];
    forall j | 0 <= j < |pairs| && j != k
      ensures !Chosen(pairs[j], weights[j], p.first.0, p.first.1) && !Chosen(pairs[j], weights[j], p.second.0, p.second.1)
    {
      if j < k {
        assert !Joins(pairs[j].first, p.first.0, p.first.1) && !Joins(pairs[j].second, p.first.0, p.first.1);
        assert !Joins(pairs[j].first, p.second.0, p.second.1) && !Joins(pairs[j].second, p.second.0, p.second.1);
      } else {
        assert !Joins(p.first, pairs[j].first.0, pairs[j].first.1) && !Joins(p.first, pairs[j].second.0, pairs[j].second.1);
        assert !Joins(p.second, pairs[j].first.0, pairs[j].first.1) && !Joins(p.second, pairs[j].second.0, pairs[j].second.1);
      }
    }
    assert !Joins(p.second, p.first.0, p.first.1);
    assert Chosen(p, weights[k], p.first.0, p.first.1) <==> weights[k].0 <= weights[k].1;
    assert Chosen(p, weights[k], p.second.0, p.second.1) <==> weights[k].1 <= weights[k].0;
  }

  /** `LighterRemoved` for every pair at once. */
  lemma LighterRemovedAll(g: Graph<Coord>, pairs: seq<DiagonalPair>, weights: seq<(int, int)>)
    requires |weights| == |pairs| && PairsPresent(g, pairs) && PairsDistinct(pairs)
    ensures RemoveLightest(g, pairs, weights).Ok?
    ensures var r := RemoveLightest(g, pairs, weights).value;
            forall k :: 0 <= k < |pairs| ==>
              && (HasEdge(r, pairs[k].first.0, pairs[k].first.1) <==> weights[k].1 < weights[k].0)
              && (HasEdge(r, pairs[k].second.0, pairs[k].second.1) <==> weights[k].0 < weights[k].1)
  {
    RemoveLightestSpec(g, pairs, weights);
    forall k | 0 <= k < |pairs|
      ensures var r := RemoveLightest(g, pairs, weights).value;
              && (HasEdge(r, pairs[k].first.0, pairs[k].first.1) <==> weights[k].1 < weights[k].0)
              && (HasEdge(r, pairs[k].second.0, pairs[k].second.1) <==> weights[k].0 < weights[k].1)
    {
      LighterRemoved(g, pairs, weights, k);
    }
  }

  /** The weights `_compute_weights` gives the two diagonals of `p`. */
  ghost function PairWeights(g: Graph<Coord>, p: DiagonalPair): (int, int)
    requires p.first.0 in g && p.first.1 in g && p.second.0 in g && p.second.1 in g
  {
    (EdgeWeight(g, p.first.0, p.first.1), EdgeWeight(g, p.second.0, p.second.1))
  }

  /** `_compute_weights`: the weights of both diagonals of a pair. */
  method ComputePairWeights(g: Graph<Coord>, p: DiagonalPair) returns (wt: (int, int))
    requires Simple(g) && HasEdge(g, p.first.0, p.first.1) && HasEdge(g, p.second.0, p.second.1)
    ensures wt == PairWeights(g, p)
  {
    var w0, _, _, _ := ComputeSingleWeight(g, p.first.0, p.first.1);
    var w1, _, _, _ := ComputeSingleWeight(g, p.second.0, p.second.1);
    wt := (w0, w1);
  }

  /** The first loop of `apply_heuristics`: `_compute_weights` for every pair, on the graph as it stands. */
  method ComputeWeights(g: Graph<Coord>, pairs: seq<DiagonalPair>) returns (weights: seq<(int, int)>)
    requires Simple(g) && PairsPresent(g, pairs)
    ensures |weights| == |pairs|
    ensures forall k :: 0 <= k < |pairs| ==> weights[k] == PairWeights(g, pairs[k])
  {
    weights := [];
    for k := 0 to |pairs|
      invariant |weights| == k
      invariant forall j :: 0 <= j < k ==> weights[j] == PairWeights(g, pairs[j])
    {
      var wt := ComputePairWeights(g, pairs[k]);
      weights := weights + [wt];
    }
  }

  /**
   * `apply_heuristics`: every diagonal is weighed on the graph as it stands,
   * before any is removed; then from each pair the diagonals of least
   * weight are removed, so a diagonal survives exactly when it is strictly
   * heavier than the other.
   */
  method ApplyHeuristics(g: Graph<Coord>, pairs: seq<DiagonalPair>) returns (r: Result<Graph<Coord>>, weights: seq<(int, int)>)
    requires Simple(g) && PairsPresent(g, pairs)
    ensures |weights| == |pairs|
    ensures forall k :: 0 <= k < |pairs| ==> weights[k] == PairWeights(g, pairs[k])
    ensures r == RemoveLightest(g, pairs, weights)
    ensures PairsDistinct(pairs) ==> r.Ok?
    ensures r.Ok? ==> r.value.Keys == g.Keys
    ensures r.Ok? ==> forall x, y :: HasEdge(r.value, x, y) <==> HasEdge(g, x, y) && !ChosenInAny(pairs, weights, x, y)
    ensures r.Ok? && PairsDistinct(pairs) ==> forall k :: 0 <= k < |pairs| ==>
              && (HasEdge(r.value, pairs[k].first.0, pairs[k].first.1) <==> PairWeights(g, pairs[k]).1 < PairWeights(g, pairs[k]).0)
              && (HasEdge(r.value, pairs[k].second.0, pairs[k].second.1) <==> PairWeights(g, pairs[k]).0 < PairWeights(g, pairs[k]).1)
  {
    weights := ComputeWeights(g, pairs);
    RemoveLightestSpec(g, pairs, weights);
    r := RemoveLightest(g, pairs, weights);
    if PairsDistinct(pairs) {
      LighterRemovedAll(g, pairs, weights);
    }
  }
}
