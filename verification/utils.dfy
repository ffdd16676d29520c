/**
 * The vectorizer's helpers: pixel coordinates as `(x, y)` pairs, the
 * clamped and bounded coordinate tests, and the edge and set utilities the
 * graph passes share. The YUV conversion and the similarity test are the
 * ones of the `Yuv` module, which the Python code computes the same way.
 */
module Utils {
  import opened Arith
  import opened Pixel
  import opened Yuv

  /** A pixel position, the `(x, y)` tuple of the Python code. */
  datatype Coord = Coord(x: int, y: int)

  /**
   * A vertex of the pixel-cell graph: a pixel corner `(x, y)` with integer
   * coordinates, or a point the deformation placed at quarter or half
   * positions between them.
   */
  datatype Vertex = Vertex(x: real, y: real)

  /** Python's ordering of vertex tuples: by `x`, then by `y`. */
  predicate VertexBelow(a: Vertex, b: Vertex) {
    a.x < b.x || (a.x == b.x && a.y < b.y)
  }

  /** Python's ordering of `(x, y)` tuples: by `x`, then by `y`. */
  predicate Below(a: Coord, b: Coord) {
    a.x < b.x || (a.x == b.x && a.y < b.y)
  }

  /** `clamp(num, lo, hi)`, that is `max(min(num, hi), lo)`: `lo` wins when the bounds cross. */
  function Clamp(num: int, lo: int, hi: int): (r: int)
    ensures lo <= hi ==> lo <= r <= hi
    ensures lo <= num <= hi ==> r == num
    ensures hi < lo ==> r == lo
  {
    var m := if num < hi then num else hi;
    if m < lo then lo else m
  }

  /** Clamping is the identity on values in range and idempotent everywhere. */
  lemma ClampIdempotent(num: int, lo: int, hi: int)
    ensures Clamp(Clamp(num, lo, hi), lo, hi) == Clamp(num, lo, hi)
  {
  }

  /** `within_bounds(coordinate, size, offset)`. */
  predicate WithinBounds(c: Coord, width: int, height: int, ox: int, oy: int) {
    0 <= c.x + ox < width && 0 <= c.y + oy < height
  }

  /** The coordinates of row `y`, left to right. */
  function Row(w: int, y: int): (r: seq<Coord>)
    ensures |r| == if w < 0 then 0 else w
    ensures forall k :: 0 <= k < |r| ==> r[k] == Coord(k, y)
  {
    seq(if w < 0 then 0 else w, k => Coord(k, y))
  }

  /** `pixel_coords(width, height)`: every `(x, y)`, row by row. */
  function PixelCoords(w: int, h: int): seq<Coord>
    decreases h
  {
    if h <= 0 then [] else PixelCoords(w, h - 1) + Row(w, h - 1)
  }

  /** The generator yields exactly the in-bounds coordinates. */
  lemma {:induction false} PixelCoordsMembers(w: int, h: int, c: Coord)
    ensures c in PixelCoords(w, h) <==> WithinBounds(c, w, h, 0, 0)
    decreases h
  {
    if h > 0 {
      PixelCoordsMembers(w, h - 1, c);
      assert c in Row(w, h - 1) <==> 0 <= c.x < w && c.y == h - 1 by {
        if 0 <= c.x < w && c.y == h - 1 {
          assert Row(w, h - 1)[c.x] == c;
        }
      }
    }
  }

  /** Row-major order: position `k` holds `(k % w, k / w)`, and there are `w * h` of them. */
  lemma {:induction false} PixelCoordsOrder(w: nat, h: nat)
    requires 0 < w
    ensures |PixelCoords(w, h)| == w * h
    ensures forall k :: 0 <= k < w * h ==> PixelCoords(w, h)[k] == Coord(k % w, k / w)
    decreases h
  {
    if h > 0 {
      PixelCoordsOrder(w, h - 1);
      var pc := PixelCoords(w, h);
      assert w * h == w * (h - 1) + w;
      forall k | 0 <= k < w * h
        ensures pc[k] == Coord(k % w, k / w)
      {
        if k >= w * (h - 1) {
          var x := k - w * (h - 1);
          assert pc[k] == Row(w, h - 1)[x];
          DivModUnique(w, h - 1, x);
          assert k == x + (h - 1) * w;
        }
      }
    }
  }

  /** There are no coordinates when either dimension is empty or negative. */
  lemma {:induction false} PixelCoordsEmpty(w: int, h: int)
    requires w <= 0 || h <= 0
    ensures PixelCoords(w, h) == []
    decreases h
  {
    if h > 0 {
      PixelCoordsEmpty(w, h - 1);
    }
  }

  /** No coordinate is yielded twice. */
  lemma PixelCoordsDistinct(w: nat, h: nat, i: int, j: int)
    requires 0 < w && 0 <= i < j < w * h
    ensures |PixelCoords(w, h)| == w * h && PixelCoords(w, h)[i] != PixelCoords(w, h)[j]
  {
    PixelCoordsOrder(w, h);
    assert i == (i / w) * w + i % w && j == (j / w) * w + j % w;
  }

  /** No element occurs twice. */
  predicate Distinct<T(==)>(s: seq<T>) {
    forall i, j :: 0 <= i < j < |s| ==> s[i] != s[j]
  }

  /** A subset is no larger than its superset. */
  lemma {:induction false} CardMono<T>(a: set<T>, b: set<T>)
    requires a <= b
    ensures |a| <= |b|
    decreases a
  {
    if a != {} {
      var x :| x in a;
      CardMono(a - {x}, b - {x});
    }
  }

  /** Past one element of a two-element set there is exactly one more, and they make up the set. */
  lemma TwoElements<T>(s: set<T>, a: T)
    requires |s| == 2 && a in s
    ensures |s - {a}| == 1
    ensures forall b :: b in s - {a} ==> s == {a, b}
  {
    forall b | b in s - {a}
      ensures s == {a, b}
    {
      assert |s - {a, b}| == 0;
    }
  }

  /** `sorted_vertices(edge)`: the two endpoints in ascending order. */
  function SortedVertices(a: Coord, b: Coord): (r: (Coord, Coord))
    ensures {r.0, r.1} == {a, b}
    ensures !Below(r.1, r.0)
  {
    if Below(b, a) then (b, a) else (a, b)
  }

  /** The result does not depend on which way round the edge is given. */
  lemma SortedVerticesSymmetric(a: Coord, b: Coord)
    ensures SortedVertices(a, b) == SortedVertices(b, a)
  {
  }

  /** `safe_remove(collection, element)` on a set: never raises. */
  function SafeRemove<T>(s: set<T>, e: T): (r: set<T>)
    ensures e !in r && r <= s
    ensures forall x :: x in s && x != e ==> x in r
  {
    if e in s then s - {e} else s
  }

  /** Removing an element that is absent leaves the set unchanged, and removing twice is removing once. */
  lemma SafeRemoveAbsent<T>(s: set<T>, e: T)
    ensures e !in s ==> SafeRemove(s, e) == s
    ensures SafeRemove(SafeRemove(s, e), e) == SafeRemove(s, e)
  {
  }

  /** Grey pixels are similar exactly when their levels differ by at most the luma threshold 48. */
  lemma GreysSimilar(a: int, b: int)
    requires IsByte(a) && IsByte(b)
    ensures PixelsSimilar(Rgb(a, a, a), Rgb(b, b, b)) <==> Abs(a - b) <= 48
  {
    GreyYuv(a);
    GreyYuv(b);
  }
}
