/**
 * Undirected graphs as the vectorizer uses networkx's: every node maps to
 * its set of neighbours. Edge attributes are not kept; where the Python
 * code reads one (`diagonal`, `weight`), the model recomputes it.
 */
module Graphs {
  import opened Results

  type Graph<T> = map<T, set<T>>

  predicate HasEdge<T(!new)>(g: Graph<T>, a: T, b: T) {
    a in g && b in g[a]
  }

  /** Adjacency is symmetric, closed over the nodes, and has no self-loops. */
  predicate Simple<T(!new)>(g: Graph<T>) {
    forall a | a in g :: forall b | b in g[a] :: b in g && a in g[b] && a != b
  }

  /** `add_node(n)`: a new node has no neighbours; an existing one keeps its own. */
  function AddNode<T(!new)>(g: Graph<T>, n: T): (r: Graph<T>)
    ensures r.Keys == g.Keys + {n}
    ensures forall x :: x in g ==> r[x] == g[x]
    ensures n !in g ==> r[n] == {}
  {
    if n in g then g else g[n := {}]
  }

  /** `add_edge(a, b)`: missing endpoints become nodes. */
  function AddEdge<T(!new)>(g: Graph<T>, a: T, b: T): (r: Graph<T>)
    ensures r.Keys == g.Keys + {a, b}
    ensures forall x, y :: HasEdge(r, x, y) <==> HasEdge(g, x, y) || (x == a && y == b) || (x == b && y == a)
  {
    var g1 := AddNode(AddNode(g, a), b);
    var g2 := g1[a := g1[a] + {b}];
    g2[b := g2[b] + {a}]
  }

  /** `remove_edge(a, b)`: networkx raises when the edge is absent. */
  function RemoveEdge<T(!new)>(g: Graph<T>, a: T, b: T): (r: Result<Graph<T>>)
    ensures r.Ok? <==> HasEdge(g, a, b)
    ensures r.Ok? ==> r.value.Keys == g.Keys
    ensures r.Ok? ==> forall x, y :: HasEdge(r.value, x, y) <==> HasEdge(g, x, y) && !(x == a && y == b) && !(x == b && y == a)
  {
    if !HasEdge(g, a, b) then Err(NetworkXError)
    else
      var g1 := g[a := g[a] - {b}];
      Ok(if b in g1 then g1[b := g1[b] - {a}] else g1)
  }

  /** `remove_node(n)`: the node goes with every edge at it; networkx raises for a missing node. */
  function RemoveNode<T(!new)>(g: Graph<T>, n: T): (r: Result<Graph<T>>)
    ensures r.Ok? <==> n in g
    ensures r.Ok? ==> r.value.Keys == g.Keys - {n}
    ensures r.Ok? ==> forall x, y :: HasEdge(r.value, x, y) <==> HasEdge(g, x, y) && x != n && y != n
  {
    if n !in g then Err(NetworkXError)
    else Ok(map x | x in g && x != n :: g[x] - {n})
  }

  /** `len(g[n])`, the valence of a node. */
  function Degree<T(!new)>(g: Graph<T>, n: T): nat
    requires n in g
  {
    |g[n]|
  }

  /** Adding an edge between two different nodes keeps a graph simple. */
  lemma AddEdgeSimple<T(!new)>(g: Graph<T>, a: T, b: T)
    requires Simple(g) && a != b
    ensures Simple(AddEdge(g, a, b))
  {
    var r := AddEdge(g, a, b);
    forall x, y | x in r && y in r[x]
      ensures y in r && x in r[y] && x != y
    {
      assert HasEdge(r, x, y);
      assert HasEdge(r, y, x);
    }
  }

  /** Removing an edge keeps a graph simple. */
  lemma RemoveEdgeSimple<T(!new)>(g: Graph<T>, a: T, b: T)
    requires Simple(g) && HasEdge(g, a, b)
    ensures Simple(RemoveEdge(g, a, b).value)
  {
    var r := RemoveEdge(g, a, b).value;
    forall x, y | x in r && y in r[x]
      ensures y in r && x in r[y] && x != y
    {
      assert HasEdge(r, x, y);
      assert HasEdge(r, y, x);
    }
  }

  /** Removing a node keeps a graph simple. */
  lemma RemoveNodeSimple<T(!new)>(g: Graph<T>, n: T)
    requires Simple(g) && n in g
    ensures Simple(RemoveNode(g, n).value)
  {
    var r := RemoveNode(g, n).value;
    forall x, y | x in r && y in r[x]
      ensures y in r && x in r[y] && x != y
    {
      assert HasEdge(r, x, y);
      assert HasEdge(r, y, x);
    }
  }

  /** Two graphs with the same nodes and the same edges are the same graph. */
  lemma GraphExt<T(!new)>(g: Graph<T>, h: Graph<T>)
    requires g.Keys == h.Keys
    requires forall x, y :: HasEdge(g, x, y) <==> HasEdge(h, x, y)
    ensures g == h
  {
    forall x | x in g
      ensures g[x] == h[x]
    {
      assert forall y :: y in g[x] <==> HasEdge(g, x, y);
      assert forall y :: y in h[x] <==> HasEdge(h, x, y);
    }
  }

  /** Removing an edge just added between two existing nodes restores the graph. */
  lemma RemoveAddEdge<T(!new)>(g: Graph<T>, a: T, b: T)
    requires a in g && b in g && !HasEdge(g, a, b) && !HasEdge(g, b, a)
    ensures RemoveEdge(AddEdge(g, a, b), a, b) == Ok(g)
  {
    var r := RemoveEdge(AddEdge(g, a, b), a, b);
    GraphExt(r.value, g);
  }

  /** Adding an edge that is already there changes nothing. */
  lemma AddEdgePresent<T(!new)>(g: Graph<T>, a: T, b: T)
    requires HasEdge(g, a, b) && HasEdge(g, b, a)
    ensures AddEdge(g, a, b) == g
  {
    GraphExt(AddEdge(g, a, b), g);
  }
}
