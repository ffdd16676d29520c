/**
 * The bookkeeping of the vectorizer's B-splines: a spline's degree must
 * agree with its knot and point counts, a closed spline repeats its first
 * `degree` control points at the end, and moving a point of a closed spline
 * moves its copy too. Also the traversal that turns a connected shape graph
 * into a path of vertices.
 *
 * Control points are left abstract (`P`), since none of this bookkeeping
 * computes with them; knots are exact reals, so the floating-point rounding
 * of `float(i) / m` and `1 - k` is not modelled.
 */
module Geometry {
  import opened Results
  import opened PyList
  import opened Utils
  import opened Graphs

  /** `BSpline` or its subclass `ClosedBSpline`: the class decides which checks the constructor makes. */
  datatype Kind = Open | Closed

  datatype Spline<P> = Spline(kind: Kind, knots: seq<real>, points: seq<P>, degree: int)

  /** The degree `len(knots) - len(points) - 1` that the knot and point counts call for. */
  function ExpectedDegree<P>(knots: seq<real>, points: seq<P>): int {
    |knots| - |points| - 1
  }

  /** `points[:degree] == points[-degree:]`, with Python's slicing. */
  predicate Wrapped<P(==)>(points: seq<P>, degree: int) {
    Take(points, degree) == Drop(points, -degree)
  }

  /** What the constructor checks: the degree fits the counts, and a closed spline is wrapped. */
  predicate Valid<P(==)>(s: Spline<P>) {
    && s.degree == ExpectedDegree(s.knots, s.points)
    && (s.kind == Closed ==> Wrapped(s.points, s.degree))
  }

  /**
   * `BSpline.__init__` and `ClosedBSpline.__init__`: an omitted degree is
   * the expected one, a different one raises `ValueError`, and a closed
   * spline whose points are not wrapped raises `ValueError`.
   */
  function Make<P(==)>(kind: Kind, knots: seq<real>, points: seq<P>, degree: Option<int>): (r: Result<Spline<P>>)
    ensures r.Ok? ==> Valid(r.value) && r.value.kind == kind && r.value.knots == knots && r.value.points == points
    ensures r.Err? ==> r.error == ValueError
    ensures degree.Some? && degree.value != ExpectedDegree(knots, points) ==> r.Err?
  {
    var expected := ExpectedDegree(knots, points);
    var d := if degree.None? then expected else degree.value;
    if d != expected then Err(ValueError)
    else if kind == Closed && !Wrapped(points, d) then Err(ValueError)
    else Ok(Spline(kind, knots, points, d))
  }

  /** Construction succeeds exactly on valid splines, with or without the degree given. */
  lemma MakeValid<P>(s: Spline<P>)
    ensures Make(s.kind, s.knots, s.points, Some(s.degree)) == Make(s.kind, s.knots, s.points, None) || !Valid(s)
    ensures Make(s.kind, s.knots, s.points, Some(s.degree)).Ok? <==> Valid(s)
    ensures Valid(s) ==> Make(s.kind, s.knots, s.points, None) == Ok(s)
  {
  }

  /** For `0 < degree <= len(points)` the wrap says point `i` equals point `len(points) - degree + i`, for `i < degree`. */
  lemma WrappedAt<P>(points: seq<P>, d: int)
    requires 0 < d <= |points|
    ensures Wrapped(points, d) <==> forall i :: 0 <= i < d ==> points[i] == points[|points| - d + i]
  {
    FromEnd(points, d);
    if forall i :: 0 <= i < d ==> points[i] == points[|points| - d + i] {
      assert Take(points, d) == Drop(points, -d);
    }
  }

  /** `copy()`: the same class rebuilt from the same knots, points and degree. */
  function Copy<P(==)>(s: Spline<P>): Result<Spline<P>> {
    Make(s.kind, s.knots, s.points, Some(s.degree))
  }

  /** A valid spline copies to itself, and only a valid one copies at all. */
  lemma CopySpec<P>(s: Spline<P>)
    ensures Copy(s).Ok? <==> Valid(s)
    ensures Valid(s) ==> Copy(s) == Ok(s)
  {
  }

  /** `domain`: the knots at positions `degree` and `len(knots) - degree - 1`, either of which may raise `IndexError`. */
  function Domain<P>(s: Spline<P>): (r: Result<(real, real)>)
    ensures r.Err? ==> r.error == IndexError
  {
    var lo :- Index(s.knots, s.degree);
    var hi :- Index(s.knots, |s.knots| - s.degree - 1);
    Ok((lo, hi))
  }

  /** On a valid spline of non-negative degree the domain runs from knot `degree` to knot `len(points)`. */
  lemma DomainSpec<P>(s: Spline<P>)
    requires Valid(s) && 0 <= s.degree
    ensures Domain(s) == Ok((s.knots[s.degree], s.knots[|s.points|]))
  {
  }

  function Reverse<T>(s: seq<T>): (r: seq<T>)
    ensures |r| == |s|
    ensures forall i :: 0 <= i < |s| ==> r[i] == s[|s| - 1 - i]
  {
    seq(|s|, i requires 0 <= i < |s| => s[|s| - 1 - i])
  }

  lemma ReverseReverse<T>(s: seq<T>)
    ensures Reverse(Reverse(s)) == s
  {
  }

  /** `1 - k` for each knot, last to first. */
  function MirrorKnots(knots: seq<real>): (r: seq<real>)
    ensures |r| == |knots|
  {
    seq(|knots|, i requires 0 <= i < |knots| => 1.0 - knots[|knots| - 1 - i])
  }

  /** `reversed()`: the same class over the mirrored knots and the points in reverse. */
  function Reversed<P(==)>(s: Spline<P>): Result<Spline<P>> {
    Make(s.kind, MirrorKnots(s.knots), Reverse(s.points), Some(s.degree))
  }

  /** The head of the reversed points is the reversed tail, and the other way round, for any degree but 0. */
  lemma ReverseSlices<P>(p: seq<P>, d: int)
    requires d != 0
    ensures Take(Reverse(p), d) == Reverse(Drop(p, -d))
    ensures Drop(Reverse(p), -d) == Reverse(Take(p, d))
  {
  }

  /** Reversal keeps the wrap, whatever the degree. */
  lemma ReverseWrapped<P>(p: seq<P>, d: int)
    ensures Wrapped(Reverse(p), d) <==> Wrapped(p, d)
  {
    if d == 0 {
      assert Wrapped(p, 0) <==> p == [];
      assert Wrapped(Reverse(p), 0) <==> Reverse(p) == [];
    } else {
      ReverseSlices(p, d);
      if Wrapped(Reverse(p), d) {
        ReverseReverse(Drop(p, -d));
        ReverseReverse(Take(p, d));
      }
    }
  }

  lemma MirrorMirror(knots: seq<real>)
    ensures MirrorKnots(MirrorKnots(knots)) == knots
  {
  }

  /** Reversing a valid spline succeeds and gives a valid spline of the same class and degree. */
  lemma ReversedValid<P>(s: Spline<P>)
    requires Valid(s)
    ensures Reversed(s) == Ok(Spline(s.kind, MirrorKnots(s.knots), Reverse(s.points), s.degree))
  {
    ReverseWrapped(s.points, s.degree);
  }

  /** Reversing a valid spline succeeds, and reversing twice gives back the spline. */
  lemma ReversedInvolution<P>(s: Spline<P>)
    requires Valid(s)
    ensures Reversed(s).Ok? && Valid(Reversed(s).value)
    ensures Reversed(Reversed(s).value) == Ok(s)
  {
    ReversedValid(s);
    var t := Spline(s.kind, MirrorKnots(s.knots), Reverse(s.points), s.degree);
    ReversedValid(t);
    ReverseReverse(s.points);
    MirrorMirror(s.knots);
  }

  /**
   * `move_point`: an open spline assigns `points[i]`, raising `IndexError`
   * out of range. A closed spline rejects indices outside
   * `[0, len(points))`, reduces the index modulo the unwrapped length
   * `len(points) - degree`, assigns there, and assigns the wrapped copy
   * too when the reduced index is below the degree.
   */
  function MovePoint<P>(s: Spline<P>, index: int, value: P): (r: Result<Spline<P>>)
    ensures r.Ok? ==> r.value.kind == s.kind && r.value.knots == s.knots && r.value.degree == s.degree
    ensures r.Ok? ==> |r.value.points| == |s.points|
    ensures s.kind == Open ==> (r.Ok? <==> IndexOk(s.points, index))
    ensures s.kind == Open && IndexOk(s.points, index) ==> r == Ok(s.(points := s.points[Position(s.points, index) := value]))
    ensures s.kind == Open && !IndexOk(s.points, index) ==> r == Err(IndexError)
    ensures s.kind == Closed && !(0 <= index < |s.points|) ==> r == Err(IndexError)
  {
    if s.kind == Open then
      var points :- Update(s.points, index, value);
      Ok(s.(points := points))
    else if !(0 <= index < |s.points|) then Err(IndexError)
    else
      var unwrapped := |s.points| - s.degree;
      var i :- Mod(index, unwrapped);
      var points :- Update(s.points, i, value);
      if i < s.degree then
        var again :- Update(points, i + unwrapped, value);
        Ok(s.(points := again))
      else Ok(s.(points := points))
  }

  /** The points with every position congruent to `j` modulo `u` set to `value`. */
  function Moved<P>(points: seq<P>, u: int, j: int, value: P): (r: seq<P>)
    requires 0 < u
    ensures |r| == |points|
  {
    seq(|points|, k requires 0 <= k < |points| => if k % u == j then value else points[k])
  }

  /** Below `2 * u`, the positions congruent to `i < u` are `i` and `i + u`. */
  lemma Congruent(k: int, i: int, u: int)
    requires 0 <= k < 2 * u && 0 <= i < u
    ensures k % u == i <==> k == i || k == i + u
  {
    if k >= u {
      DivAddOne(k - u, u);
    }
  }

  /** A closed move assigns exactly the positions congruent to the index modulo the unwrapped length. */
  lemma MovePointMoves<P>(s: Spline<P>, index: int, value: P)
    requires s.kind == Closed && 0 < s.degree && 2 * s.degree <= |s.points|
    requires 0 <= index < |s.points|
    ensures MovePoint(s, index, value) == Ok(s.(points := Moved(s.points, |s.points| - s.degree, index % (|s.points| - s.degree), value)))
  {
    var n, d := |s.points|, s.degree;
    var u := n - d;
    var i := index % u;
    assert Mod(index, u) == Ok(i);
    var once := s.points[i := value];
    assert Update(s.points, i, value) == Ok(once);
    var moved := Moved(s.points, u, i, value);
    if i < d {
      var twice := once[i + u := value];
      assert Update(once, i + u, value) == Ok(twice);
      forall k | 0 <= k < n
        ensures twice[k] == moved[k]
      {
        Congruent(k, i, u);
      }
      assert twice == moved;
    } else {
      forall k | 0 <= k < n
        ensures once[k] == moved[k]
      {
        Congruent(k, i, u);
      }
      assert once == moved;
    }
  }

  /** Setting a whole congruence class keeps a wrap of length at most `u`. */
  lemma MovedWrapped<P>(points: seq<P>, d: int, j: int, value: P)
    requires 0 < d && 2 * d <= |points| && 0 <= j < |points| - d
    requires Wrapped(points, d)
    ensures Wrapped(Moved(points, |points| - d, j, value), d)
  {
    var u := |points| - d;
    var moved := Moved(points, u, j, value);
    WrappedAt(points, d);
    forall i | 0 <= i < d
      ensures moved[i] == moved[u + i]
    {
      Congruent(u + i, i, u);
      Congruent(i, i, u);
    }
    WrappedAt(moved, d);
  }

  /**
   * On a closed spline whose degree is positive and at most half its point
   * count, moving any point in range succeeds, puts the value at the given
   * index, and keeps the spline wrapped; `MovePointMoves` says which other
   * points change.
   */
  lemma MovePointKeepsWrap<P>(s: Spline<P>, index: int, value: P)
    requires Valid(s) && s.kind == Closed && 0 < s.degree && 2 * s.degree <= |s.points|
    requires 0 <= index < |s.points|
    ensures MovePoint(s, index, value).Ok? && Valid(MovePoint(s, index, value).value)
    ensures MovePoint(s, index, value).value.points[index] == value
  {
    MovePointMoves(s, index, value);
    MovedSpline(s, index % (|s.points| - s.degree), value);
    MovedAt(s.points, |s.points| - s.degree, index, value);
  }

  /** The spline with a whole congruence class moved is still valid. */
  lemma MovedSpline<P>(s: Spline<P>, j: int, value: P)
    requires Valid(s) && s.kind == Closed && 0 < s.degree && 2 * s.degree <= |s.points|
    requires 0 <= j < |s.points| - s.degree
    ensures Valid(s.(points := Moved(s.points, |s.points| - s.degree, j, value)))
  {
    var moved := Moved(s.points, |s.points| - s.degree, j, value);
    MovedWrapped(s.points, s.degree, j, value);
    var t := s.(points := moved);
    assert Wrapped(t.points, t.degree);
  }

  /** The moved index holds the value. */
  lemma MovedAt<P>(points: seq<P>, u: int, index: int, value: P)
    requires 0 < u && 0 <= index < |points|
    ensures Moved(points, u, index % u, value)[index] == value
  {
  }

  /** `x + u` leaves the same remainder as `x`, for `0 <= x < u`. */
  lemma DivAddOne(x: int, u: int)
    requires 0 <= x < u
    ensures (x + u) % u == x
  {
  }

  /** When the degree exceeds half the points, moving a point can break the wrap the constructor checked. */
  lemma MovePointBreaksLongWrap()
    ensures var s := Spline(Closed, [0.0, 0.0, 0.0, 0.0, 0.0, 0.0], [0, 0, 0], 2);
            && Valid(s)
            && MovePoint(s, 0, 1) == Ok(s.(points := [1, 1, 0]))
            && !Wrapped([1, 1, 0], 2)
  {
    var s := Spline(Closed, [0.0, 0.0, 0.0, 0.0, 0.0, 0.0], [0, 0, 0], 2);
    FromEnd(s.points, 2);
    assert Mod(0, 1) == Ok(0);
    assert Update([0, 0, 0], 0, 1).value == [1, 0, 0];
    assert Update([1, 0, 0], 1, 1).value == [1, 1, 0];
    FromEnd([1, 1, 0], 2);
    assert Take([1, 1, 0], 2)[1] != Drop([1, 1, 0], -2)[1];
  }

  /** A closed spline whose degree equals its point count has nothing unwrapped, and every move divides by zero. */
  lemma MovePointNothingUnwrapped<P>(s: Spline<P>, index: int, value: P)
    requires s.kind == Closed && s.degree == |s.points| && 0 <= index < |s.points|
    ensures MovePoint(s, index, value) == Err(ZeroDivisionError)
  {
  }

  /** `useful_points`: all points of an open spline, a closed spline's without its last `degree`. */
  function UsefulPoints<P>(s: Spline<P>): seq<P> {
    if s.kind == Closed then Take(s.points, -s.degree) else s.points
  }

  /** A closed spline's points are its useful points followed by the first `degree` of them again. */
  lemma UsefulPointsWrap<P>(s: Spline<P>)
    requires Valid(s) && s.kind == Closed && 0 < s.degree && 2 * s.degree <= |s.points|
    ensures |UsefulPoints(s)| == |s.points| - s.degree
    ensures s.points == UsefulPoints(s) + UsefulPoints(s)[..s.degree]
  {
    FromEnd(s.points, s.degree);
    WrappedAt(s.points, s.degree);
    var u := UsefulPoints(s);
    assert s.points == u + s.points[|u|..];
  }

  /** `[float(i) / m for i in range(m + 1)]`: empty for negative `m`, and `m == 0` divides by zero. */
  function UniformKnots(m: int): (r: Result<seq<real>>)
    ensures r.Ok? <==> m != 0
    ensures r.Err? ==> r.error == ZeroDivisionError
    ensures r.Ok? ==> |r.value| == if m < 0 then 0 else m + 1
    ensures r.Ok? ==> forall i :: 0 <= i < |r.value| ==> r.value[i] * (m as real) == i as real
  {
    if m == 0 then Err(ZeroDivisionError)
    else if m < 0 then Ok([])
    else Ok(seq(m + 1, i => (i as real) / (m as real)))
  }

  /**
   * `curve_to_closed_bspline(path, degree)`: the path followed by its first
   * `degree` points, with `m + 1` uniform knots for `m = len(points) + degree`.
   * `polyline_to_closed_bspline` is the same function.
   */
  function CurveToClosedBSpline<P(==)>(path: seq<P>, degree: int): Result<Spline<P>> {
    var points := path + Take(path, degree);
    var knots :- UniformKnots(|points| + degree);
    Make(Closed, knots, points, Some(degree))
  }

  /** The uniform knots rise strictly from 0 to 1. */
  lemma UniformKnotsRise(m: int)
    requires 0 < m
    ensures var knots := UniformKnots(m).value;
            && knots[0] == 0.0 && knots[m] == 1.0
            && forall i, j :: 0 <= i < j <= m ==> knots[i] < knots[j]
  {
    var knots := UniformKnots(m).value;
    forall i, j | 0 <= i < j <= m
      ensures knots[i] < knots[j]
    {
      KnotsRise(i, j, m);
    }
  }

  lemma KnotsRise(i: int, j: int, m: int)
    requires 0 <= i < j <= m
    ensures (i as real) / (m as real) < (j as real) / (m as real)
  {
  }

  /** The path followed by its first `d` points is wrapped at `d`, and its head without the last `d` is the path. */
  lemma ExtendedPathWrapped<P>(path: seq<P>, d: int)
    requires 0 < d <= |path|
    ensures Wrapped(path + Take(path, d), d)
    ensures Take(path + Take(path, d), -d) == path
  {
    var points := path + Take(path, d);
    assert Take(path, d) == path[..d];
    FromEnd(points, d);
  }

  /**
   * For a degree from 1 up to the path length the spline is built: it has
   * `len(path) + degree` points, knots rising evenly from 0 to 1, its useful
   * points are the path, and its domain runs from `degree / m` to
   * `len(path) / m`.
   */
  lemma CurveToClosedBSplineSpec<P>(path: seq<P>, d: int)
    requires 0 < d <= |path|
    ensures var r := CurveToClosedBSpline(path, d);
            && r.Ok? && Valid(r.value) && r.value.degree == d
            && |r.value.points| == |path| + d
            && UsefulPoints(r.value) == path
            && var m := |path| + 2 * d;
               && |r.value.knots| == m + 1
               && r.value.knots[0] == 0.0 && r.value.knots[m] == 1.0
               && (forall i, j :: 0 <= i < j <= m ==> r.value.knots[i] < r.value.knots[j])
               && Domain(r.value) == Ok((r.value.knots[d], r.value.knots[|path| + d]))
  {
    ExtendedPathWrapped(path, d);
    var m := |path| + 2 * d;
    UniformKnotsRise(m);
    var s := CurveToClosedBSpline(path, d).value;
    DomainSpec(s);
  }

  /** With the default degree 2 the spline is built for every path, the empty and single-point ones included. */
  lemma DefaultDegreeAlwaysBuilds<P>(path: seq<P>)
    ensures CurveToClosedBSpline(path, 2).Ok?
  {
    if |path| >= 2 {
      CurveToClosedBSplineSpec(path, 2);
    } else {
      var points := path + Take(path, 2);
      assert Take(points, 2) == points && Drop(points, -2) == points;
    }
  }

  /** `p` is the least vertex of `s` in Python's tuple order. */
  predicate Least(s: set<Vertex>, p: Vertex) {
    p in s && forall n :: n in s ==> !VertexBelow(n, p)
  }

  /** Every non-empty set of vertices has a least one, so `min(nodes)` succeeds. */
  lemma {:induction false} LeastExists(s: set<Vertex>)
    requires s != {}
    ensures exists p :: Least(s, p)
    decreases s
  {
    var x :| x in s;
    if s == {x} {
      assert Least(s, x);
    } else {
      LeastExists(s - {x});
      var p :| Least(s - {x}, p);
      if VertexBelow(x, p) {
        forall n | n in s
          ensures !VertexBelow(n, x)
        {
          if n != x {
            assert !VertexBelow(n, p);
          }
        }
        assert Least(s, x);
      } else {
        assert Least(s, p);
      }
    }
  }

  /** Consecutive vertices of `path` are adjacent in `g`. */
  predicate Connected(g: Graph<Vertex>, path: seq<Vertex>) {
    forall i :: 0 <= i < |path| - 1 ==> HasEdge(g, path[i], path[i + 1])
  }

  /** A walk from `start` along edges of `g` that repeats no vertex, with `nodes` the vertices it has not visited. */
  ghost predicate Walk(g: Graph<Vertex>, start: Vertex, path: seq<Vertex>, nodes: set<Vertex>) {
    && 2 <= |path| && path[0] == start
    && Distinct(path) && (forall k :: 0 <= k < |path| ==> path[k] in g) && Connected(g, path)
    && forall n :: n in nodes <==> n in g && n !in path
  }

  /**
   * `Path.make_path`: start at the least vertex, step to one of its
   * neighbours (the one of least slope; the slope order is not modelled, so
   * any neighbour may come first), then keep stepping to an unvisited
   * neighbour of the last vertex (the first in networkx's adjacency order,
   * likewise any) until every vertex is visited or, three rounds without
   * progress later, the infinite-loop guard gives up. `min` of no vertices
   * raises `ValueError`; a least vertex without neighbours makes
   * `neighbors[0]` raise `IndexError`. The path never repeats a vertex,
   * follows edges, and ends when it has visited everything or its last
   * vertex has no unvisited neighbour left.
   */
  method MakePath(g: Graph<Vertex>) returns (r: Result<seq<Vertex>>)
    requires Simple(g)
    ensures g.Keys == {} ==> r == Err(ValueError)
    ensures g.Keys != {} ==> (r == Err(IndexError) <==> forall p :: Least(g.Keys, p) ==> g[p] == {})
    ensures r.Err? ==> r.error == ValueError || r.error == IndexError
    ensures r.Ok? ==> var path := r.value;
              && 2 <= |path| && Least(g.Keys, path[0])
              && Distinct(path) && (forall i :: 0 <= i < |path| ==> path[i] in g) && Connected(g, path)
              && ((forall n :: n in g ==> n in path) || forall m :: m in g[path[|path| - 1]] ==> m in path)
  {
    var nodes := g.Keys;
    if nodes == {} {
      return Err(ValueError);
    }
    LeastExists(nodes);
    var start :| Least(nodes, start);
    LeastUnique(nodes, start);
    if g[start] == {} {
      return Err(IndexError);
    }
    var first :| first in g[start];
    var path := [start, first];
    nodes := nodes - {start, first};
    var p := first;
    var i := 0;
    while nodes != {}
      invariant Walk(g, start, path, nodes) && p == path[|path| - 1]
      invariant 0 <= i < 3
      invariant 0 < i ==> forall m :: m in g[p] ==> m !in nodes
      decreases |nodes|, 3 - i
    {
      var last := path[|path| - 1];
      if m :| m in g[last] && m in nodes {
        WalkOn(g, start, path, nodes, m);
        nodes := nodes - {m};
        path := path + [m];
      }
      if p != path[|path| - 1] {
        p := path[|path| - 1];
        i := 0;
      } else {
        i := i + 1;
        if i == 3 {
          break;
        }
      }
    }
    return Ok(path);
  }

  /** Stepping from the last vertex to an unvisited neighbour extends the walk. */
  lemma WalkOn(g: Graph<Vertex>, start: Vertex, path: seq<Vertex>, nodes: set<Vertex>, m: Vertex)
    requires Simple(g) && Walk(g, start, path, nodes)
    requires m in g[path[|path| - 1]] && m in nodes
    ensures Walk(g, start, path + [m], nodes - {m}) && |nodes - {m}| < |nodes|
  {
    ExtendPath(g, path, m);
  }

  /** Stepping from the last vertex to an unvisited neighbour keeps a path without repeats along edges. */
  lemma ExtendPath(g: Graph<Vertex>, path: seq<Vertex>, m: Vertex)
    requires 0 < |path| && Distinct(path) && (forall k :: 0 <= k < |path| ==> path[k] in g) && Connected(g, path)
    requires m in g[path[|path| - 1]] && m in g && m !in path
    ensures var ext := path + [m];
            && Distinct(ext) && (forall k :: 0 <= k < |ext| ==> ext[k] in g) && Connected(g, ext)
            && forall n :: n in ext <==> n in path || n == m
  {
    var ext := path + [m];
    assert forall k :: 0 <= k < |path| ==> ext[k] == path[k];
  }

  /** The least vertex is the only one. */
  lemma LeastUnique(s: set<Vertex>, p: Vertex)
    requires Least(s, p)
    ensures forall q :: Least(s, q) ==> q == p
  {
  }
}
