/**
 * The corner-preserving collapse that ends `_deform_pixel_grid`: every
 * vertex of the pixel-cell graph with at most two neighbours is removed,
 * the two neighbours of a valence-2 vertex are joined first, the four
 * corners of the image are never touched, and each pixel's corner set
 * forgets the vertices that are gone.
 *
 * The loop reads valences from the graph as it is being changed: joining
 * the neighbours of one vertex can raise the valence of a vertex visited
 * later, and a vertex marked for removal keeps its edges until the loop
 * ends. Valences therefore only grow while the loop runs.
 */
module PixelGrid {
  import opened Results
  import opened Utils
  import opened Graphs

  /** `(0, 0)`, `(width, 0)`, `(0, height)` and `(width, height)`: the corners the collapse skips. */
  function ImageCorners(w: int, h: int): set<Vertex> {
    {Vertex(0.0, 0.0), Vertex(w as real, 0.0), Vertex(0.0, h as real), Vertex(w as real, h as real)}
  }

  /** `order` lists every vertex of the graph once: the order in which networkx yields the nodes. */
  predicate Enumerates(order: seq<Vertex>, nodes: set<Vertex>) {
    Distinct(order) && (forall k :: 0 <= k < |order| ==> order[k] in nodes) && forall n :: n in nodes ==> n in order
  }

  /** `add_edge(neighbors[0], neighbors[1])` at a valence-2 vertex `n`, written without choosing which neighbour is first. */
  function JoinNeighbours(g: Graph<Vertex>, n: Vertex): (r: Graph<Vertex>)
    requires Simple(g) && n in g && |g[n]| == 2
  {
    map k | k in g :: if k in g[n] then g[k] + (g[n] - {k}) else g[k]
  }

  /** Joining the neighbours is adding the edge between them, whichever is listed first. */
  lemma JoinNeighboursAddEdge(g: Graph<Vertex>, n: Vertex, a: Vertex, b: Vertex)
    requires Simple(g) && n in g && g[n] == {a, b} && a != b
    ensures JoinNeighbours(g, n) == AddEdge(g, a, b) == AddEdge(g, b, a)
  {
    var r := JoinNeighbours(g, n);
    forall x, y
      ensures HasEdge(r, x, y) <==> HasEdge(AddEdge(g, a, b), x, y)
    {
    }
    GraphExt(r, AddEdge(g, a, b));
    GraphExt(AddEdge(g, b, a), AddEdge(g, a, b));
  }

  /** Joining keeps the vertices, keeps every edge, and adds only the edge between the two neighbours. */
  lemma JoinNeighboursSpec(g: Graph<Vertex>, n: Vertex)
    requires Simple(g) && n in g && |g[n]| == 2
    ensures JoinNeighbours(g, n).Keys == g.Keys && Simple(JoinNeighbours(g, n))
    ensures forall x, y :: HasEdge(JoinNeighbours(g, n), x, y) <==> HasEdge(g, x, y) || (x in g[n] && y in g[n] && x != y)
  {
    var a :| a in g[n];
    TwoElements(g[n], a);
    var b :| b in g[n] - {a};
    JoinNeighboursAddEdge(g, n, a, b);
    AddEdgeSimple(g, a, b);
  }

  /**
   * One iteration of the valence loop at `n`: the graph after it and
   * whether `n` is marked for removal. Vertices in `keep` are skipped.
   */
  function CollapseStep(g: Graph<Vertex>, n: Vertex, keep: set<Vertex>): (r: (Graph<Vertex>, bool))
    requires Simple(g) && n in g
    ensures r.0.Keys == g.Keys && Simple(r.0)
    ensures r.1 <==> n !in keep && |g[n]| <= 2
    ensures forall x, y :: HasEdge(g, x, y) ==> HasEdge(r.0, x, y)
    ensures r.0[n] == g[n]
  {
    if n in keep then (g, false)
    else if |g[n]| == 2 then
      JoinNeighboursSpec(g, n);
      (JoinNeighbours(g, n), true)
    else (g, |g[n]| <= 2)
  }

  /** The valence loop of `_deform_pixel_grid` over the vertices in `order`: the graph after it and the vertices marked, in order. */
  function MarkRemovals(g: Graph<Vertex>, order: seq<Vertex>, keep: set<Vertex>): (Graph<Vertex>, seq<Vertex>)
    requires Simple(g) && forall k :: 0 <= k < |order| ==> order[k] in g
    decreases |order|
  {
    if |order| == 0 then (g, [])
    else
      var step := CollapseStep(g, order[0], keep);
      var rest := MarkRemovals(step.0, order[1..], keep);
      (rest.0, if step.1 then [order[0]] + rest.1 else rest.1)
  }

  /** Valences never drop: every edge of the graph survives to the end of the loop. */
  lemma {:induction false} MarkRemovalsGrows(g: Graph<Vertex>, order: seq<Vertex>, keep: set<Vertex>)
    requires Simple(g) && forall k :: 0 <= k < |order| ==> order[k] in g
    ensures var r := MarkRemovals(g, order, keep).0;
            && r.Keys == g.Keys && Simple(r)
            && forall x, y :: HasEdge(g, x, y) ==> HasEdge(r, x, y)
    decreases |order|
  {
    if |order| > 0 {
      var step := CollapseStep(g, order[0], keep);
      MarkRemovalsGrows(step.0, order[1..], keep);
    }
  }

  /** The graph as the valence loop finds it when it reaches `order[k]`. */
  function Reached(g: Graph<Vertex>, order: seq<Vertex>, keep: set<Vertex>, k: int): (r: Graph<Vertex>)
    requires Simple(g) && (forall i :: 0 <= i < |order| ==> order[i] in g) && 0 <= k <= |order|
    ensures r.Keys == g.Keys && Simple(r)
  {
    MarkRemovalsGrows(g, order[..k], keep);
    MarkRemovals(g, order[..k], keep).0
  }

  /** Reaching `order[k + 1]` is reaching `order[k]` of the rest of the order, after the step at `order[0]`. */
  lemma ReachedShift(g: Graph<Vertex>, order: seq<Vertex>, keep: set<Vertex>, k: int)
    requires Simple(g) && (forall i :: 0 <= i < |order| ==> order[i] in g) && 0 <= k < |order| - 1
    ensures Reached(g, order, keep, k + 1) == Reached(CollapseStep(g, order[0], keep).0, order[1..], keep, k)
  {
    assert order[..k + 1][0] == order[0];
    assert order[..k + 1][1..] == order[1..][..k];
  }

  /** An edge the step at `n` adds joins the two neighbours of `n`, which is marked. */
  lemma StepAdds(g: Graph<Vertex>, n: Vertex, keep: set<Vertex>, x: Vertex, y: Vertex)
    requires Simple(g) && n in g
    requires HasEdge(CollapseStep(g, n, keep).0, x, y) && !HasEdge(g, x, y)
    ensures CollapseStep(g, n, keep).1 && n !in keep && g[n] == {x, y}
  {
    JoinNeighboursSpec(g, n);
    TwoElements(g[n], x);
    assert y in g[n] - {x};
  }

  /** The vertex at `order[k]` is marked, outside `keep`, and had exactly `x` and `y` as neighbours when the loop reached it. */
  predicate JoinedAt(g: Graph<Vertex>, order: seq<Vertex>, keep: set<Vertex>, marked: seq<Vertex>, k: int, x: Vertex, y: Vertex)
    requires Simple(g) && forall i :: 0 <= i < |order| ==> order[i] in g
  {
    0 <= k < |order| && order[k] in marked && order[k] !in keep && Reached(g, order, keep, k)[order[k]] == {x, y}
  }

  /**
   * Every edge the loop adds joins the two neighbours of a vertex it
   * marked: a vertex outside `keep` that had exactly those two neighbours
   * when the loop reached it.
   */
  lemma {:induction false} MarkRemovalsAdds(g: Graph<Vertex>, order: seq<Vertex>, keep: set<Vertex>)
    requires Simple(g) && forall k :: 0 <= k < |order| ==> order[k] in g
    ensures var (r, marked) := MarkRemovals(g, order, keep);
            forall x, y :: HasEdge(r, x, y) && !HasEdge(g, x, y) ==> exists k :: JoinedAt(g, order, keep, marked, k, x, y)
    decreases |order|
  {
    if |order| > 0 {
      var n, tail := order[0], order[1..];
      var step := CollapseStep(g, n, keep);
      var g1 := step.0;
      MarkRemovalsAdds(g1, tail, keep);
      var (r, marked) := MarkRemovals(g, order, keep);
      var rest := MarkRemovals(g1, tail, keep).1;
      assert marked == if step.1 then [n] + rest else rest;
      forall x, y | HasEdge(r, x, y) && !HasEdge(g, x, y)
        ensures exists k :: JoinedAt(g, order, keep, marked, k, x, y)
      {
        if HasEdge(g1, x, y) {
          StepAdds(g, n, keep, x, y);
          assert order[..0] == [];
          assert JoinedAt(g, order, keep, marked, 0, x, y);
        } else {
          var k :| JoinedAt(g1, tail, keep, rest, k, x, y);
          ReachedShift(g, order, keep, k);
          assert JoinedAt(g, order, keep, marked, k + 1, x, y);
        }
      }
    }
  }

  /** A vertex's neighbours in the graph are among its neighbours after the loop. */
  lemma NeighboursKept(g: Graph<Vertex>, r: Graph<Vertex>, n: Vertex)
    requires n in g && r.Keys == g.Keys
    requires forall x, y :: HasEdge(g, x, y) ==> HasEdge(r, x, y)
    ensures g[n] <= r[n] && |g[n]| <= |r[n]|
  {
    assert forall y :: y in g[n] ==> HasEdge(g, n, y);
    CardMono(g[n], r[n]);
  }

  /**
   * Every vertex the loop marks was visited, is outside `keep`, and had at
   * most two neighbours to begin with; no vertex is marked twice when none
   * is visited twice.
   */
  lemma {:induction false} MarkedLowValence(g: Graph<Vertex>, order: seq<Vertex>, keep: set<Vertex>)
    requires Simple(g) && forall k :: 0 <= k < |order| ==> order[k] in g
    ensures var marked := MarkRemovals(g, order, keep).1;
            && (forall n :: n in marked ==> n in order && n !in keep && n in g && |g[n]| <= 2)
            && (Distinct(order) ==> Distinct(marked))
    decreases |order|
  {
    if |order| > 0 {
      var n, tail := order[0], order[1..];
      var step := CollapseStep(g, n, keep);
      MarkedLowValence(step.0, tail, keep);
      var marked := MarkRemovals(g, order, keep).1;
      var rest := MarkRemovals(step.0, tail, keep).1;
      assert marked == if step.1 then [n] + rest else rest;
      forall m | m in marked
        ensures m in order && m !in keep && m in g && |g[m]| <= 2
      {
        if m != n || !step.1 {
          assert m in rest;
          NeighboursKept(g, step.0, m);
        }
      }
      if Distinct(order) {
        assert Distinct(tail);
        if step.1 {
          assert n !in tail;
          assert n !in rest;
        }
      }
    }
  }

  /**
   * Valences only grow while the loop runs, so a vertex outside `keep`
   * left with at most two neighbours had at most two when the loop reached
   * it, and is marked.
   */
  lemma {:induction false} LowValenceMarked(g: Graph<Vertex>, order: seq<Vertex>, keep: set<Vertex>)
    requires Simple(g) && forall k :: 0 <= k < |order| ==> order[k] in g
    ensures var (r, marked) := MarkRemovals(g, order, keep);
            forall n :: n in order && n !in keep && n in r && |r[n]| <= 2 ==> n in marked
    decreases |order|
  {
    if |order| > 0 {
      var n, tail := order[0], order[1..];
      var step := CollapseStep(g, n, keep);
      LowValenceMarked(step.0, tail, keep);
      MarkRemovalsGrows(step.0, tail, keep);
      var (r, marked) := MarkRemovals(g, order, keep);
      var rest := MarkRemovals(step.0, tail, keep).1;
      assert marked == if step.1 then [n] + rest else rest;
      forall m | m in order && m !in keep && m in r && |r[m]| <= 2
        ensures m in marked
      {
        if m == n {
          NeighboursKept(step.0, r, n);
        } else {
          assert m in tail;
        }
      }
    }
  }

  /** `for node in removals: remove_node(node)`: networkx raises for a vertex that is missing, or already removed. */
  function RemoveNodes(g: Graph<Vertex>, ns: seq<Vertex>): Result<Graph<Vertex>>
    decreases |ns|
  {
    if |ns| == 0 then Ok(g)
    else
      var g1 :- RemoveNode(g, ns[0]);
      RemoveNodes(g1, ns[1..])
  }

  /**
   * Removing a list of vertices succeeds exactly when each is a vertex and
   * none is listed twice; it leaves the other vertices and exactly the
   * edges between them.
   */
  lemma {:induction false} RemoveNodesSpec(g: Graph<Vertex>, ns: seq<Vertex>)
    ensures var r := RemoveNodes(g, ns);
            && (r.Ok? <==> (forall k :: 0 <= k < |ns| ==> ns[k] in g) && Distinct(ns))
            && (r.Err? ==> r.error == NetworkXError)
            && (r.Ok? ==> forall n :: n in r.value <==> n in g && n !in ns)
            && (r.Ok? ==> forall x, y :: HasEdge(r.value, x, y) <==> HasEdge(g, x, y) && x !in ns && y !in ns)
    decreases |ns|
  {
    if |ns| > 0 {
      var n, tail := ns[0], ns[1..];
      if n in g {
        var g1 := RemoveNode(g, n).value;
        RemoveNodesSpec(g1, tail);
        assert forall m :: m in ns <==> m == n || m in tail;
        if (forall k :: 0 <= k < |ns| ==> ns[k] in g) && Distinct(ns) {
          forall k | 0 <= k < |tail|
            ensures tail[k] in g1
          {
            assert tail[k] == ns[k + 1];
          }
        }
        if RemoveNodes(g, ns).Ok? {
          forall k | 0 <= k < |ns|
            ensures ns[k] in g
          {
            if k > 0 {
              assert ns[k] == tail[k - 1];
            }
          }
          forall i, j | 0 <= i < j < |ns|
            ensures ns[i] != ns[j]
          {
            assert ns[j] == tail[j - 1] && ns[j] in g1;
            if i > 0 {
              assert ns[i] == tail[i - 1];
            }
          }
        }
      } else {
        assert ns[0] !in g;
      }
    }
  }

  /** The loop that drops each pixel's corners that are no longer vertices. */
  function UpdateCorners(corners: map<Coord, set<Vertex>>, pg: Graph<Vertex>): (r: map<Coord, set<Vertex>>)
    ensures r.Keys == corners.Keys
    ensures forall p :: p in r ==> r[p] <= corners[p] && r[p] <= pg.Keys
  {
    map p | p in corners :: set v | v in corners[p] && v in pg
  }

  /** A corner is dropped exactly when its vertex is gone, and updating a second time changes nothing. */
  lemma UpdateCornersSpec(corners: map<Coord, set<Vertex>>, pg: Graph<Vertex>, p: Coord, v: Vertex)
    requires p in corners && v in corners[p]
    ensures v in UpdateCorners(corners, pg)[p] <==> v in pg
    ensures UpdateCorners(UpdateCorners(corners, pg), pg) == UpdateCorners(corners, pg)
  {
    var once := UpdateCorners(corners, pg);
    var twice := UpdateCorners(once, pg);
    forall q | q in once
      ensures twice[q] == once[q]
    {
    }
  }

  /**
   * The collapse and the corner update of `_deform_pixel_grid`, applied to
   * the pixel-cell graph the cell deformation left, with `order` the order
   * in which networkx yields its vertices. No `remove_node` raises. The
   * corners of the image that are vertices survive, and so do every other
   * vertex with more than two neighbours and every edge between survivors;
   * each removed vertex had at most two neighbours, or had them when the
   * loop reached it after joins; the corner sets keep exactly their
   * surviving vertices.
   */
  method DeformPixelGrid(pg: Graph<Vertex>, w: int, h: int, order: seq<Vertex>, corners: map<Coord, set<Vertex>>)
    returns (r: Graph<Vertex>, pixelCorners: map<Coord, set<Vertex>>)
    requires Simple(pg) && Enumerates(order, pg.Keys)
    ensures r.Keys <= pg.Keys
    ensures forall n :: n in ImageCorners(w, h) && n in pg ==> n in r
    ensures forall n :: n in pg && n !in r ==> n !in ImageCorners(w, h) && |pg[n]| <= 2
    ensures forall x, y :: HasEdge(pg, x, y) && x in r && y in r ==> HasEdge(r, x, y)
    ensures forall x, y :: HasEdge(r, x, y) ==> x != y && HasEdge(r, y, x)
    ensures forall x, y :: HasEdge(r, x, y) && !HasEdge(pg, x, y) ==>
              exists k :: 0 <= k < |order| && order[k] !in r && order[k] !in ImageCorners(w, h)
                && Reached(pg, order, ImageCorners(w, h), k)[order[k]] == {x, y}
    ensures pixelCorners.Keys == corners.Keys
    ensures forall p, v :: p in corners && v in corners[p] ==> (v in pixelCorners[p] <==> v in r)
    ensures forall p :: p in corners ==> pixelCorners[p] <= corners[p]
  {
    var keep := ImageCorners(w, h);
    var (collapsed, removals) := MarkRemovals(pg, order, keep);
    MarkRemovalsGrows(pg, order, keep);
    MarkedLowValence(pg, order, keep);
    MarkRemovalsAdds(pg, order, keep);
    RemoveNodesSpec(collapsed, removals);
    r := RemoveNodes(collapsed, removals).value;
    forall x, y | HasEdge(r, x, y)
      ensures x != y && HasEdge(r, y, x)
    {
      assert HasEdge(collapsed, x, y);
    }
    pixelCorners := UpdateCorners(corners, r);
  }

  /** After the collapse no vertex other than an image corner has two neighbours or fewer in the collapsed graph. */
  lemma CollapseLeavesNoLowValence(pg: Graph<Vertex>, w: int, h: int, order: seq<Vertex>, n: Vertex)
    requires Simple(pg) && Enumerates(order, pg.Keys)
    requires n in pg && n !in ImageCorners(w, h)
    ensures var (collapsed, removals) := MarkRemovals(pg, order, ImageCorners(w, h));
            n in collapsed && (|collapsed[n]| <= 2 ==> n in removals)
  {
    MarkRemovalsGrows(pg, order, ImageCorners(w, h));
    LowValenceMarked(pg, order, ImageCorners(w, h));
  }
}
