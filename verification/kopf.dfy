/**
 * The structural passes of the Kopf–Lischinski vectorizer: reading pixels
 * under an out-of-bounds policy, building the similarity graph (one node
 * per pixel, an edge to each similar 8-neighbour), classifying the 2x2
 * blocks whose two diagonals cross, and collapsing low-valence vertices of
 * the pixel-cell graph without touching the image corners.
 */
module Kopf {
  import opened Results
  import opened PyList
  import opened Pixel
  import opened Yuv
  import opened Utils
  import opened Graphs
  import opened Heuristics
  import opened Arith

  /** `OutOfBoundsStrategy`: clamp to the nearest pixel, read black, or raise. */
  datatype OutOfBounds = ClampNearest | ReturnZero | Panic

  /** The policy `_pixel_data_safe_access` uses when none is given. */
  const DefaultPolicy: OutOfBounds := Panic

  /** The vectorizer's input: its width, height and rows of RGB triples. */
  datatype Picture = Picture(width: int, height: int, rows: seq<seq<Rgb>>)

  /** `height` rows of `width` pixels each. */
  predicate Consistent(pic: Picture) {
    && 0 <= pic.width && 0 <= pic.height && |pic.rows| == pic.height
    && forall j :: 0 <= j < |pic.rows| ==> |pic.rows[j]| == pic.width
  }

  predicate InPicture(pic: Picture, c: Coord) {
    WithinBounds(c, pic.width, pic.height, 0, 0)
  }

  function PixelAt(pic: Picture, c: Coord): Rgb
    requires Consistent(pic) && InPicture(pic, c)
  {
    pic.rows[c.y][c.x]
  }

  const Black: Rgb := Rgb(0, 0, 0)

  /** `pixel_data[y][x]` with Python's indexing: negative positions count from the end. */
  function Subscript(pic: Picture, x: int, y: int): (r: Result<Rgb>)
    ensures Consistent(pic) && InPicture(pic, Coord(x, y)) ==> r == Ok(PixelAt(pic, Coord(x, y)))
  {
    var row :- Index(pic.rows, y);
    Index(row, x)
  }

  predicate OutOfRange(v: int, size: int) {
    v < 0 || v >= size
  }

  /**
   * `_pixel_data_safe_access` as written: on an out-of-range `y` the
   * NEAREST policy stores the clamped row into `x` and leaves `y` as it was.
   */
  function PixelDataSafeAccessAsWritten(pic: Picture, x: int, y: int, policy: OutOfBounds): (r: Result<Rgb>)
  {
    if OutOfRange(x, pic.width) && policy == ReturnZero then Ok(Black)
    else if OutOfRange(x, pic.width) && policy == Panic then Err(RuntimeError)
    else
      var x1 := if OutOfRange(x, pic.width) then Clamp(x, 0, pic.width - 1) else x;
      if OutOfRange(y, pic.height) && policy == ReturnZero then Ok(Black)
      else if OutOfRange(y, pic.height) && policy == Panic then Err(RuntimeError)
      else
        var x2 := if OutOfRange(y, pic.height) then Clamp(y, 0, pic.height - 1) else x1;
        Subscript(pic, x2, y)
  }

  /** `_pixel_data_safe_access` with the NEAREST branch clamping `y` into `y`. */
  function PixelDataSafeAccess(pic: Picture, x: int, y: int, policy: OutOfBounds): (r: Result<Rgb>)
    requires Consistent(pic)
    ensures InPicture(pic, Coord(x, y)) ==> r == Ok(PixelAt(pic, Coord(x, y)))
    ensures !InPicture(pic, Coord(x, y)) && policy == ReturnZero ==> r == Ok(Black)
    ensures !InPicture(pic, Coord(x, y)) && policy == Panic ==> r == Err(RuntimeError)
    ensures policy == ClampNearest && 0 < pic.width && 0 < pic.height ==>
              r == Ok(PixelAt(pic, Coord(Clamp(x, 0, pic.width - 1), Clamp(y, 0, pic.height - 1))))
  {
    if OutOfRange(x, pic.width) && policy == ReturnZero then Ok(Black)
    else if OutOfRange(x, pic.width) && policy == Panic then Err(RuntimeError)
    else
      var x1 := if OutOfRange(x, pic.width) then Clamp(x, 0, pic.width - 1) else x;
      if OutOfRange(y, pic.height) && policy == ReturnZero then Ok(Black)
      else if OutOfRange(y, pic.height) && policy == Panic then Err(RuntimeError)
      else
        var y1 := if OutOfRange(y, pic.height) then Clamp(y, 0, pic.height - 1) else y;
        Subscript(pic, x1, y1)
  }

  /** The two versions differ only under the NEAREST policy. */
  lemma AsWrittenAgreesOffNearest(pic: Picture, x: int, y: int, policy: OutOfBounds)
    requires Consistent(pic) && policy != ClampNearest
    ensures PixelDataSafeAccessAsWritten(pic, x, y, policy) == PixelDataSafeAccess(pic, x, y, policy)
  {
  }

  /** A 3x1 picture of three different pixels. */
  function Strip(): (pic: Picture)
    ensures Consistent(pic)
  {
    Picture(3, 1, [[Rgb(0, 0, 0), Rgb(1, 1, 1), Rgb(2, 2, 2)]])
  }

  /**
   * Under NEAREST, reading `(2, -1)` of the strip yields pixel `(0, 0)` as
   * written (the row index -1 wraps to the last row, and `x` becomes the
   * clamped row 0), where the nearest pixel is `(2, 0)`; reading `(0, 1)`
   * raises `IndexError` as written, where the nearest pixel is `(0, 0)`.
   */
  lemma NearestAsWrittenMisreads()
    ensures PixelDataSafeAccessAsWritten(Strip(), 2, -1, ClampNearest) == Ok(Rgb(0, 0, 0))
    ensures PixelDataSafeAccess(Strip(), 2, -1, ClampNearest) == Ok(Rgb(2, 2, 2))
    ensures PixelDataSafeAccessAsWritten(Strip(), 0, 1, ClampNearest) == Err(IndexError)
    ensures PixelDataSafeAccess(Strip(), 0, 1, ClampNearest) == Ok(Rgb(0, 0, 0))
  {
    assert PixelAt(Strip(), Coord(2, 0)) == Rgb(2, 2, 2);
    assert PixelAt(Strip(), Coord(0, 0)) == Rgb(0, 0, 0);
  }

  /** A pixel similarity test; the vectorizer uses `PixelsSimilar`. */
  type Similarity = (Rgb, Rgb) -> bool

  /** Whether an edge `(n0, n1)` is marked diagonal: both coordinates differ. */
  predicate IsDiagonal(n0: Coord, n1: Coord) {
    n0.x != n1.x && n0.y != n1.y
  }

  /** `_add_edge_if_valid(n0, n1)`: an edge when `n1` is in the picture and the two pixels are similar. */
  function AddEdgeIfValid(g: Graph<Coord>, pic: Picture, n0: Coord, n1: Coord, similar: Similarity): (r: Graph<Coord>)
    requires Consistent(pic)
  {
    var p0 := PixelDataSafeAccess(pic, n0.x, n0.y, ReturnZero).value;
    var p1 := PixelDataSafeAccess(pic, n1.x, n1.y, ReturnZero).value;
    if InPicture(pic, n1) && similar(p0, p1) then AddEdge(g, n0, n1) else g
  }

  /** The pixels a pixel tries to connect to: right, up-right, down-right and down. */
  predicate Ahead(a: Coord, b: Coord) {
    (b.x == a.x + 1 && a.y - 1 <= b.y <= a.y + 1) || (b.x == a.x && b.y == a.y + 1)
  }

  /** Both pixels are in the picture and similar. */
  predicate Linked(pic: Picture, a: Coord, b: Coord, similar: Similarity)
    requires Consistent(pic)
  {
    InPicture(pic, a) && InPicture(pic, b) && similar(PixelAt(pic, a), PixelAt(pic, b))
  }

  lemma AddEdgeIfValidNodes(g: Graph<Coord>, pic: Picture, n0: Coord, n1: Coord, similar: Similarity)
    requires Consistent(pic) && InPicture(pic, n0)
    ensures AddEdgeIfValid(g, pic, n0, n1, similar).Keys == g.Keys + (if Linked(pic, n0, n1, similar) then {n0, n1} else {})
  {
  }

  lemma AddEdgeIfValidEdge(g: Graph<Coord>, pic: Picture, n0: Coord, n1: Coord, similar: Similarity, x: Coord, y: Coord)
    requires Consistent(pic) && InPicture(pic, n0)
    ensures HasEdge(AddEdgeIfValid(g, pic, n0, n1, similar), x, y) <==>
              HasEdge(g, x, y) || (Linked(pic, n0, n1, similar) && ((x == n0 && y == n1) || (x == n1 && y == n0)))
  {
  }

  /** The pixels `c` tries, in the order the loop body tries them: E, NE, SE, S. */
  function Targets(c: Coord): seq<Coord> {
    [Coord(c.x + 1, c.y), Coord(c.x + 1, c.y - 1), Coord(c.x + 1, c.y + 1), Coord(c.x, c.y + 1)]
  }

  lemma TargetsAhead(c: Coord, y: Coord)
    ensures y in Targets(c) <==> Ahead(c, y)
  {
  }

  /** `_add_edge_if_valid(c, t)` for each `t` of `ts` in turn. */
  function AddEdgesIfValid(g: Graph<Coord>, pic: Picture, c: Coord, ts: seq<Coord>, similar: Similarity): Graph<Coord>
    requires Consistent(pic)
    decreases |ts|
  {
    if |ts| == 0 then g else AddEdgesIfValid(AddEdgeIfValid(g, pic, c, ts[0], similar), pic, c, ts[1..], similar)
  }

  /** The tries add exactly the edges from `c` to the targets it is linked to, with their endpoints. */
  lemma {:induction false} AddEdgesIfValidSpec(g: Graph<Coord>, pic: Picture, c: Coord, ts: seq<Coord>, similar: Similarity)
    requires Consistent(pic) && InPicture(pic, c)
    ensures var r := AddEdgesIfValid(g, pic, c, ts, similar);
            && g.Keys <= r.Keys
            && (forall k :: k in r ==> k in g || k == c || (k in ts && Linked(pic, c, k, similar)))
            && forall x, y :: HasEdge(r, x, y) <==>
                 HasEdge(g, x, y)
                 || (x == c && y in ts && Linked(pic, c, y, similar))
                 || (y == c && x in ts && Linked(pic, c, x, similar))
    decreases |ts|
  {
    if |ts| > 0 {
      var g1 := AddEdgeIfValid(g, pic, c, ts[0], similar);
      AddEdgeIfValidNodes(g, pic, c, ts[0], similar);
      forall x, y
        ensures HasEdge(g1, x, y) <==>
                  HasEdge(g, x, y) || (Linked(pic, c, ts[0], similar) && ((x == c && y == ts[0]) || (x == ts[0] && y == c)))
      {
        AddEdgeIfValidEdge(g, pic, c, ts[0], similar, x, y);
      }
      AddEdgesIfValidSpec(g1, pic, c, ts[1..], similar);
      assert forall t :: t in ts <==> t == ts[0] || t in ts[1..];
    }
  }

  /** The body of the loop in `_create_similarity_graph` for pixel `c`. */
  function VisitPixel(g: Graph<Coord>, pic: Picture, c: Coord, similar: Similarity): Graph<Coord>
    requires Consistent(pic)
  {
    AddEdgesIfValid(AddNode(g, c), pic, c, Targets(c), similar)
  }

  /** Visiting a pixel adds it and its edges to the similar pixels ahead of it, and nothing else. */
  lemma VisitPixelSpec(g: Graph<Coord>, pic: Picture, c: Coord, similar: Similarity)
    requires Consistent(pic) && InPicture(pic, c)
    ensures var r := VisitPixel(g, pic, c, similar);
            && g.Keys + {c} <= r.Keys
            && (forall k :: k in r ==> k in g || InPicture(pic, k))
            && forall x, y :: HasEdge(r, x, y) <==>
                 HasEdge(g, x, y)
                 || (x == c && Ahead(c, y) && Linked(pic, c, y, similar))
                 || (y == c && Ahead(c, x) && Linked(pic, c, x, similar))
  {
    var g0 := AddNode(g, c);
    AddEdgesIfValidSpec(g0, pic, c, Targets(c), similar);
    forall x, y
      ensures HasEdge(g0, x, y) <==> HasEdge(g, x, y)
    {
    }
    forall y
      ensures y in Targets(c) <==> Ahead(c, y)
    {
      TargetsAhead(c, y);
    }
  }

  /** The loop of `_create_similarity_graph` over the pixels `cs`. */
  function Visit(g: Graph<Coord>, pic: Picture, cs: seq<Coord>, similar: Similarity): Graph<Coord>
    requires Consistent(pic)
    decreases |cs|
  {
    if |cs| == 0 then g else Visit(VisitPixel(g, pic, cs[0], similar), pic, cs[1..], similar)
  }

  /** After the loop, the edges are those from each visited pixel to the similar pixels ahead of it. */
  lemma {:induction false} VisitSpec(g: Graph<Coord>, pic: Picture, cs: seq<Coord>, similar: Similarity)
    requires Consistent(pic) && forall k :: 0 <= k < |cs| ==> InPicture(pic, cs[k])
    ensures var r := Visit(g, pic, cs, similar);
            && (forall k :: k in g || k in cs ==> k in r)
            && (forall k :: k in r ==> k in g || InPicture(pic, k))
            && forall x, y :: HasEdge(r, x, y) <==>
                 HasEdge(g, x, y)
                 || (x in cs && Ahead(x, y) && Linked(pic, x, y, similar))
                 || (y in cs && Ahead(y, x) && Linked(pic, y, x, similar))
    decreases |cs|
  {
    if |cs| > 0 {
      var g1 := VisitPixel(g, pic, cs[0], similar);
      VisitPixelSpec(g, pic, cs[0], similar);
      assert forall k :: 0 <= k < |cs[1..]| ==> cs[1..][k] == cs[k + 1];
      VisitSpec(g1, pic, cs[1..], similar);
      assert forall k :: k in cs <==> k == cs[0] || k in cs[1..];
    }
  }

  /** The pixels of the picture in the order the loop visits them. */
  function PixelsOf(pic: Picture): seq<Coord> {
    PixelCoords(pic.width, pic.height)
  }

  /** `_create_similarity_graph` with a given similarity test. */
  function SimilarityGraphWith(pic: Picture, similar: Similarity): Graph<Coord>
    requires Consistent(pic)
  {
    Visit(map[], pic, PixelsOf(pic), similar)
  }

  /** `_create_similarity_graph`: the pixels' YUV similarity decides each edge. */
  function SimilarityGraph(pic: Picture): Graph<Coord>
    requires Consistent(pic)
  {
    SimilarityGraphWith(pic, PixelsSimilar)
  }

  /** Two different pixels touching at a side or a corner. */
  predicate Neighbours8(a: Coord, b: Coord) {
    a != b && -1 <= a.x - b.x <= 1 && -1 <= a.y - b.y <= 1
  }

  ghost predicate Symmetric(similar: Similarity) {
    forall p, q :: similar(p, q) == similar(q, p)
  }

  lemma PixelsSimilarSymmetric()
    ensures Symmetric(PixelsSimilar)
  {
    forall p, q
      ensures PixelsSimilar(p, q) == PixelsSimilar(q, p)
    {
      PixelsSimilarReflexiveSymmetric(p, q);
    }
  }

  /**
   * The similarity graph has a node for every pixel and nothing else, and
   * an edge between two pixels exactly when they are 8-neighbours and
   * similar: every neighbour pair is tried once, from the pixel above or
   * to the left.
   */
  lemma SimilarityGraphSpec(pic: Picture, similar: Similarity)
    requires Consistent(pic) && Symmetric(similar)
    ensures var g := SimilarityGraphWith(pic, similar);
            && (forall k :: k in g <==> InPicture(pic, k))
            && forall a, b :: HasEdge(g, a, b) <==>
                 InPicture(pic, a) && InPicture(pic, b) && Neighbours8(a, b)
                 && similar(PixelAt(pic, a), PixelAt(pic, b))
  {
    var cs := PixelsOf(pic);
    forall k | 0 <= k < |cs|
      ensures InPicture(pic, cs[k])
    {
      PixelCoordsMembers(pic.width, pic.height, cs[k]);
    }
    forall k
      ensures k in cs <==> InPicture(pic, k)
    {
      PixelCoordsMembers(pic.width, pic.height, k);
    }
    VisitSpec(map[], pic, cs, similar);
  }

  lemma SimilarityGraphSimple(pic: Picture)
    requires Consistent(pic)
    ensures Simple(SimilarityGraph(pic))
  {
    PixelsSimilarSymmetric();
    SimilarityGraphSpec(pic, PixelsSimilar);
    var g := SimilarityGraph(pic);
    forall a, b | a in g && b in g[a]
      ensures b in g && a in g[b] && a != b
    {
      assert HasEdge(g, a, b);
    }
  }

  /** The four corner vertices of pixel `c` in the pixel-cell graph. */
  function Corners(c: Coord): (r: set<Vertex>)
    ensures |r| == 4
  {
    var x, y := c.x as real, c.y as real;
    var s := {Vertex(x, y), Vertex(x + 1.0, y), Vertex(x, y + 1.0), Vertex(x + 1.0, y + 1.0)};
    assert |s| == 4 by {
      assert |{Vertex(x, y), Vertex(x + 1.0, y)}| == 2;
      assert |{Vertex(x, y), Vertex(x + 1.0, y), Vertex(x, y + 1.0)}| == 3;
    }
    s
  }

  /** The `corners` attribute each pixel node is created with. */
  function InitialCorners(pic: Picture): (m: map<Coord, set<Vertex>>)
    ensures forall c :: c in m <==> InPicture(pic, c)
  {
    var cs := PixelsOf(pic);
    assert forall c :: c in cs <==> InPicture(pic, c) by {
      forall c
        ensures c in cs <==> InPicture(pic, c)
      {
        PixelCoordsMembers(pic.width, pic.height, c);
      }
    }
    map c | c in cs :: Corners(c)
  }

  /** `_BLOCK_SIZE`: the diagonal pass looks at 2x2 blocks. */
  const BlockSize: int := 2

  /**
   * The block `_enumerate_blocks(size)` yields for top-left pixel `c`:
   * columns in the outer loop, rows in the inner one.
   */
  function BlockAt(c: Coord, size: int): (r: seq<Coord>)
    ensures |r| == if size <= 0 then 0 else size * size
  {
    if size <= 0 then [] else seq(size * size, i => Coord(c.x + i / size, c.y + i % size))
  }

  /** Division by `size` splits a position below `size * size` into two coordinates below `size`. */
  lemma SplitBelowSquare(i: int, size: int)
    requires 0 < size && 0 <= i < size * size
    ensures 0 <= i / size < size && 0 <= i % size < size
  {
    var q := i / size;
    assert q * size <= i;
    if q >= size {
      MulMonotone(size, q, size);
    }
  }

  /** Two coordinates below `size` make a position below `size * size`. */
  lemma JoinBelowSquare(q: int, r: int, size: int)
    requires 0 <= q < size && 0 <= r < size
    ensures 0 <= r + q * size < size * size
    ensures (r + q * size) / size == q && (r + q * size) % size == r
  {
    MulMonotone(q, size - 1, size);
    MulMonotone(0, q, size);
    DivModUnique(size, q, r);
  }

  /** A block holds exactly the pixels of the `size` x `size` square whose top-left pixel is `c`. */
  lemma BlockAtMembers(c: Coord, size: int, p: Coord)
    requires 0 < size
    ensures p in BlockAt(c, size) <==> c.x <= p.x < c.x + size && c.y <= p.y < c.y + size
  {
    var b := BlockAt(c, size);
    if c.x <= p.x < c.x + size && c.y <= p.y < c.y + size {
      var i := (p.y - c.y) + (p.x - c.x) * size;
      JoinBelowSquare(p.x - c.x, p.y - c.y, size);
      assert b[i] == p;
    }
    if p in b {
      var i :| 0 <= i < |b| && b[i] == p;
      SplitBelowSquare(i, size);
    }
  }

  /** The 2x2 block lists its pixels top-left, bottom-left, top-right, bottom-right. */
  lemma BlockAtTwo(c: Coord)
    ensures BlockAt(c, 2) == [c, Coord(c.x, c.y + 1), Coord(c.x + 1, c.y), Coord(c.x + 1, c.y + 1)]
  {
  }

  /** The top-left pixels of the blocks, in the order `pixel_coords` yields them. */
  function BlockCorners(pic: Picture, size: int): seq<Coord> {
    PixelCoords(pic.width - size + 1, pic.height - size + 1)
  }

  /** `_enumerate_blocks(size)`. */
  function EnumerateBlocks(pic: Picture, size: int): (r: seq<seq<Coord>>)
    ensures |r| == |BlockCorners(pic, size)|
    ensures forall k :: 0 <= k < |r| ==> r[k] == BlockAt(BlockCorners(pic, size)[k], size)
  {
    var cs := BlockCorners(pic, size);
    seq(|cs|, k requires 0 <= k < |cs| => BlockAt(cs[k], size))
  }

  /**
   * There are `(w - size + 1) * (h - size + 1)` blocks when both factors are
   * positive and none otherwise, each of `size * size` pixels of the picture.
   */
  lemma EnumerateBlocksSpec(pic: Picture, size: int)
    ensures var r := EnumerateBlocks(pic, size);
            var bw, bh := pic.width - size + 1, pic.height - size + 1;
            && |r| == (if bw <= 0 || bh <= 0 then 0 else bw * bh)
            && (forall k :: 0 <= k < |r| ==> |r[k]| == if size <= 0 then 0 else size * size)
            && forall k, p :: 0 <= k < |r| && p in r[k] ==> InPicture(pic, p)
  {
    var bw, bh := pic.width - size + 1, pic.height - size + 1;
    var cs := BlockCorners(pic, size);
    var r := EnumerateBlocks(pic, size);
    if bw <= 0 || bh <= 0 {
      PixelCoordsEmpty(bw, bh);
    } else {
      PixelCoordsOrder(bw, bh);
      forall k, p | 0 <= k < |r| && p in r[k]
        ensures InPicture(pic, p)
      {
        PixelCoordsMembers(bw, bh, cs[k]);
        BlockAtMembers(cs[k], size, p);
      }
    }
  }

  /** The diagonal from the top-left to the bottom-right pixel of the block at `c`. */
  function Falling(c: Coord): (Coord, Coord) {
    (c, Coord(c.x + 1, c.y + 1))
  }

  /** The diagonal from the bottom-left to the top-right pixel of the block at `c`. */
  function Rising(c: Coord): (Coord, Coord) {
    (Coord(c.x, c.y + 1), Coord(c.x + 1, c.y))
  }

  /** The pair the block at `c` hands to the heuristics, in the order its edges are listed. */
  function PairAt(c: Coord): DiagonalPair {
    DiagonalPair(Falling(c), Rising(c))
  }

  /** The edge `x`-`y` is one of the two diagonals of the block at `c`. */
  predicate OnDiagonal(c: Coord, x: Coord, y: Coord) {
    Joins(Falling(c), x, y) || Joins(Rising(c), x, y)
  }

  /** Of the six pixel pairs of a 2x2 block, the ones marked diagonal are its two diagonals. */
  lemma DiagonalsOfBlock(c: Coord, i: int, j: int)
    requires 0 <= i < j < 4
    ensures var b := BlockAt(c, BlockSize);
            IsDiagonal(b[i], b[j]) <==> (b[i], b[j]) == Falling(c) || (b[i], b[j]) == Rising(c)
  {
    BlockAtTwo(c);
  }

  /** A diagonal belongs to one block only. */
  lemma DiagonalOwner(c: Coord, d: Coord, x: Coord, y: Coord)
    requires OnDiagonal(c, x, y) && OnDiagonal(d, x, y)
    ensures c == d
  {
  }

  function Indicator(b: bool): nat {
    if b then 1 else 0
  }

  /**
   * `len(edges)` in `_remove_diagonals`: the joined pairs among the pixels of
   * the 2x2 block at `c`, each pair counted once.
   */
  function EdgeCount(g: Graph<Coord>, c: Coord): nat {
    var b := BlockAt(c, BlockSize);
    Indicator(HasEdge(g, b[0], b[1])) + Indicator(HasEdge(g, b[0], b[2])) + Indicator(HasEdge(g, b[0], b[3]))
    + Indicator(HasEdge(g, b[1], b[2])) + Indicator(HasEdge(g, b[1], b[3])) + Indicator(HasEdge(g, b[2], b[3]))
  }

  /** `len(diagonals)`: how many of the block's two diagonals are edges. */
  function DiagonalCount(g: Graph<Coord>, c: Coord): nat {
    Indicator(HasEdge(g, Falling(c).0, Falling(c).1)) + Indicator(HasEdge(g, Rising(c).0, Rising(c).1))
  }

  /** Both diagonals present and all six pairs joined: case 1, both diagonals go. */
  predicate FullyConnected(g: Graph<Coord>, c: Coord) {
    DiagonalCount(g, c) == 2 && EdgeCount(g, c) == 6
  }

  /** Both diagonals present and nothing else: case 2, the heuristics decide. */
  predicate Ambiguous(g: Graph<Coord>, c: Coord) {
    DiagonalCount(g, c) == 2 && EdgeCount(g, c) == 2
  }

  /** Both diagonals present with some but not all sides: the pass raises `RuntimeError`. */
  predicate Malformed(g: Graph<Coord>, c: Coord) {
    DiagonalCount(g, c) == 2 && EdgeCount(g, c) != 6 && EdgeCount(g, c) != 2
  }

  /** One iteration of the block loop of `_remove_diagonals`. */
  function ResolveBlock(g: Graph<Coord>, c: Coord): (r: Result<(Graph<Coord>, seq<DiagonalPair>)>)
    ensures r.Err? <==> Malformed(g, c)
    ensures r.Err? ==> r.error == RuntimeError
    ensures r.Ok? ==> r.value.0.Keys == g.Keys
    ensures r.Ok? ==> forall x, y :: HasEdge(r.value.0, x, y) <==> HasEdge(g, x, y) && !(FullyConnected(g, c) && OnDiagonal(c, x, y))
    ensures r.Ok? ==> r.value.1 == if Ambiguous(g, c) then [PairAt(c)] else []
  {
    if DiagonalCount(g, c) != 2 then Ok((g, []))
    else if EdgeCount(g, c) == 6 then
      var g1 := RemoveEdge(g, Falling(c).0, Falling(c).1).value;
      var g2 := RemoveEdge(g1, Rising(c).0, Rising(c).1).value;
      Ok((g2, []))
    else if EdgeCount(g, c) == 2 then Ok((g, [PairAt(c)]))
    else Err(RuntimeError)
  }

  /** The block loop of `_remove_diagonals` over the blocks with top-left pixels `cs`. */
  function ResolveBlocks(g: Graph<Coord>, cs: seq<Coord>): Result<(Graph<Coord>, seq<DiagonalPair>)>
    decreases |cs|
  {
    if |cs| == 0 then Ok((g, []))
    else
      var step :- ResolveBlock(g, cs[0]);
      var rest :- ResolveBlocks(step.0, cs[1..]);
      Ok((rest.0, step.1 + rest.1))
  }

  /** Changing only diagonals of the block at `c` leaves the counts of every other block as they were. */
  lemma OtherBlockUnaffected(g: Graph<Coord>, g': Graph<Coord>, c: Coord, d: Coord)
    requires c != d
    requires forall x, y :: !OnDiagonal(c, x, y) ==> (HasEdge(g', x, y) <==> HasEdge(g, x, y))
    ensures EdgeCount(g', d) == EdgeCount(g, d) && DiagonalCount(g', d) == DiagonalCount(g, d)
  {
    BlockAtTwo(d);
  }

  /** Some block of `cs` is fully connected and has `x`-`y` as a diagonal. */
  predicate Cleared(g: Graph<Coord>, cs: seq<Coord>, x: Coord, y: Coord) {
    exists k :: 0 <= k < |cs| && FullyConnected(g, cs[k]) && OnDiagonal(cs[k], x, y)
  }

  /** Classifying the later blocks after the first one is resolved gives what it gave before. */
  lemma ClassificationKept(g: Graph<Coord>, g': Graph<Coord>, cs: seq<Coord>)
    requires 0 < |cs| && Distinct(cs)
    requires forall x, y :: !OnDiagonal(cs[0], x, y) ==> (HasEdge(g', x, y) <==> HasEdge(g, x, y))
    ensures forall k :: 1 <= k < |cs| ==>
              && (Malformed(g', cs[k]) <==> Malformed(g, cs[k]))
              && (FullyConnected(g', cs[k]) <==> FullyConnected(g, cs[k]))
              && (Ambiguous(g', cs[k]) <==> Ambiguous(g, cs[k]))
  {
    forall k | 1 <= k < |cs|
      ensures EdgeCount(g', cs[k]) == EdgeCount(g, cs[k]) && DiagonalCount(g', cs[k]) == DiagonalCount(g, cs[k])
    {
      OtherBlockUnaffected(g, g', cs[0], cs[k]);
    }
  }

  /** Two different blocks share no diagonal. */
  lemma PairsOfOtherBlocks(c: Coord, d: Coord)
    requires c != d
    ensures && !Joins(Falling(c), Falling(d).0, Falling(d).1) && !Joins(Falling(c), Rising(d).0, Rising(d).1)
            && !Joins(Rising(c), Falling(d).0, Falling(d).1) && !Joins(Rising(c), Rising(d).0, Rising(d).1)
  {
  }

  /** The pairs of the blocks listed first and of those listed after stay distinct together. */
  lemma PairsDistinctAppend(ps: seq<DiagonalPair>, qs: seq<DiagonalPair>, c: Coord, cs: seq<Coord>)
    requires ps == [] || ps == [PairAt(c)]
    requires PairsDistinct(qs)
    requires forall q :: q in qs ==> exists k :: 0 <= k < |cs| && q == PairAt(cs[k])
    requires c !in cs
    ensures PairsDistinct(ps + qs)
  {
    if ps != [] {
      var all := ps + qs;
      forall i, j | 0 <= i < j < |all|
        ensures && !Joins(all[i].first, all[j].first.0, all[j].first.1)
                && !Joins(all[i].first, all[j].second.0, all[j].second.1)
                && !Joins(all[i].second, all[j].first.0, all[j].first.1)
                && !Joins(all[i].second, all[j].second.0, all[j].second.1)
      {
        if i == 0 {
          assert all[j] in qs;
          var k :| 0 <= k < |cs| && all[j] == PairAt(cs[k]);
          PairsOfOtherBlocks(c, cs[k]);
        } else {
          assert all[i] == qs[i - 1] && all[j] == qs[j - 1];
        }
      }
    }
  }

  /** The block at some position of `cs` is ambiguous and `p` is its pair. */
  predicate Listed(g: Graph<Coord>, cs: seq<Coord>, p: DiagonalPair) {
    exists k :: 0 <= k < |cs| && Ambiguous(g, cs[k]) && p == PairAt(cs[k])
  }

  /** Some block of `cs` is malformed. */
  predicate AnyMalformed(g: Graph<Coord>, cs: seq<Coord>) {
    exists k :: 0 <= k < |cs| && Malformed(g, cs[k])
  }

  /** Splitting off the first block, given that resolving it changed only its own diagonals: the malformed blocks. */
  lemma ResolveConsMalformed(g: Graph<Coord>, g1: Graph<Coord>, cs: seq<Coord>)
    requires 0 < |cs| && Distinct(cs)
    requires forall x, y :: !OnDiagonal(cs[0], x, y) ==> (HasEdge(g1, x, y) <==> HasEdge(g, x, y))
    ensures AnyMalformed(g, cs) <==> Malformed(g, cs[0]) || AnyMalformed(g1, cs[1..])
  {
    var tail := cs[1..];
    ClassificationKept(g, g1, cs);
    if AnyMalformed(g1, tail) {
      var k :| 0 <= k < |tail| && Malformed(g1, tail[k]);
      assert tail[k] == cs[k + 1];
    }
    if AnyMalformed(g, cs) && !Malformed(g, cs[0]) {
      var k :| 0 <= k < |cs| && Malformed(g, cs[k]);
      assert tail[k - 1] == cs[k];
    }
  }

  /** Splitting off the first block: the cleared diagonals. */
  lemma ResolveConsCleared(g: Graph<Coord>, g1: Graph<Coord>, cs: seq<Coord>)
    requires 0 < |cs| && Distinct(cs)
    requires forall x, y :: !OnDiagonal(cs[0], x, y) ==> (HasEdge(g1, x, y) <==> HasEdge(g, x, y))
    ensures forall x, y :: Cleared(g, cs, x, y) <==> (FullyConnected(g, cs[0]) && OnDiagonal(cs[0], x, y)) || Cleared(g1, cs[1..], x, y)
  {
    var tail := cs[1..];
    ClassificationKept(g, g1, cs);
    forall x, y | Cleared(g1, tail, x, y)
      ensures Cleared(g, cs, x, y)
    {
      var k :| 0 <= k < |tail| && FullyConnected(g1, tail[k]) && OnDiagonal(tail[k], x, y);
      assert tail[k] == cs[k + 1];
    }
    forall x, y | Cleared(g, cs, x, y) && !(FullyConnected(g, cs[0]) && OnDiagonal(cs[0], x, y))
      ensures Cleared(g1, tail, x, y)
    {
      var k :| 0 <= k < |cs| && FullyConnected(g, cs[k]) && OnDiagonal(cs[k], x, y);
      assert tail[k - 1] == cs[k];
    }
  }

  /** Splitting off the first block: the listed pairs. */
  lemma ResolveConsListed(g: Graph<Coord>, g1: Graph<Coord>, cs: seq<Coord>)
    requires 0 < |cs| && Distinct(cs)
    requires forall x, y :: !OnDiagonal(cs[0], x, y) ==> (HasEdge(g1, x, y) <==> HasEdge(g, x, y))
    ensures forall p :: Listed(g, cs, p) <==> (Ambiguous(g, cs[0]) && p == PairAt(cs[0])) || Listed(g1, cs[1..], p)
  {
    var tail := cs[1..];
    ClassificationKept(g, g1, cs);
    forall p | Listed(g1, tail, p)
      ensures Listed(g, cs, p)
    {
      var k :| 0 <= k < |tail| && Ambiguous(g1, tail[k]) && p == PairAt(tail[k]);
      assert tail[k] == cs[k + 1];
    }
    forall p | Listed(g, cs, p)
      ensures (Ambiguous(g, cs[0]) && p == PairAt(cs[0])) || Listed(g1, tail, p)
    {
      var k :| 0 <= k < |cs| && Ambiguous(g, cs[k]) && p == PairAt(cs[k]);
      if k > 0 {
        assert tail[k - 1] == cs[k];
      }
    }
  }

  /** Splitting off the first block, given that resolving it changed only its own diagonals. */
  lemma ResolveCons(g: Graph<Coord>, g1: Graph<Coord>, cs: seq<Coord>)
    requires 0 < |cs| && Distinct(cs)
    requires forall x, y :: !OnDiagonal(cs[0], x, y) ==> (HasEdge(g1, x, y) <==> HasEdge(g, x, y))
    ensures Distinct(cs[1..])
    ensures AnyMalformed(g, cs) <==> Malformed(g, cs[0]) || AnyMalformed(g1, cs[1..])
    ensures forall x, y :: Cleared(g, cs, x, y) <==> (FullyConnected(g, cs[0]) && OnDiagonal(cs[0], x, y)) || Cleared(g1, cs[1..], x, y)
    ensures forall p :: Listed(g, cs, p) <==> (Ambiguous(g, cs[0]) && p == PairAt(cs[0])) || Listed(g1, cs[1..], p)
  {
    ResolveConsMalformed(g, g1, cs);
    ResolveConsCleared(g, g1, cs);
    ResolveConsListed(g, g1, cs);
  }

  /**
   * The block loop raises exactly when some block is malformed; otherwise it
   * keeps every pixel, removes exactly the diagonals of the fully connected
   * blocks, and hands over one pair per ambiguous block, no diagonal shared.
   * Each diagonal belongs to one block, so the blocks do not interfere.
   */
  lemma {:induction false} ResolveBlocksSpec(g: Graph<Coord>, cs: seq<Coord>)
    requires Distinct(cs)
    ensures var r := ResolveBlocks(g, cs);
            && (r.Err? <==> AnyMalformed(g, cs))
            && (r.Err? ==> r.error == RuntimeError)
            && (r.Ok? ==> r.value.0.Keys == g.Keys)
            && (r.Ok? ==> forall x, y :: HasEdge(r.value.0, x, y) <==> HasEdge(g, x, y) && !Cleared(g, cs, x, y))
            && (r.Ok? ==> forall p :: p in r.value.1 <==> Listed(g, cs, p))
            && (r.Ok? ==> PairsDistinct(r.value.1))
    decreases |cs|
  {
    if |cs| > 0 {
      var c, tail := cs[0], cs[1..];
      var step := ResolveBlock(g, c);
      if step.Ok? {
        var g1 := step.value.0;
        ResolveCons(g, g1, cs);
        ResolveBlocksSpec(g1, tail);
        var r := ResolveBlocks(g1, tail);
        if r.Ok? {
          assert c !in tail;
          forall q | q in r.value.1
            ensures exists k :: 0 <= k < |tail| && q == PairAt(tail[k])
          {
          }
          PairsDistinctAppend(step.value.1, r.value.1, c, tail);
        }
      }
    }
  }

  /**
   * What the heuristics leave of the blocks: a fully connected block has lost
   * both diagonals in the block loop, an ambiguous one at least one after.
   */
  lemma DiagonalsResolved(g: Graph<Coord>, g1: Graph<Coord>, cs: seq<Coord>, pairs: seq<DiagonalPair>,
                          weights: seq<(int, int)>, r: Graph<Coord>, c: Coord)
    requires c in cs && |weights| == |pairs|
    requires forall x, y :: HasEdge(g1, x, y) <==> HasEdge(g, x, y) && !Cleared(g, cs, x, y)
    requires forall p :: p in pairs <==> Listed(g, cs, p)
    requires RemoveLightest(g1, pairs, weights) == Ok(r)
    requires forall x, y :: HasEdge(r, x, y) ==> HasEdge(g1, x, y)
    ensures FullyConnected(g, c) ==> !HasEdge(r, Falling(c).0, Falling(c).1) && !HasEdge(r, Rising(c).0, Rising(c).1)
    ensures Ambiguous(g, c) ==> !HasEdge(r, Falling(c).0, Falling(c).1) || !HasEdge(r, Rising(c).0, Rising(c).1)
  {
    var k :| 0 <= k < |cs| && cs[k] == c;
    if FullyConnected(g, c) {
      assert Cleared(g, cs, Falling(c).0, Falling(c).1) && Cleared(g, cs, Rising(c).0, Rising(c).1);
    }
    if Ambiguous(g, c) {
      assert Listed(g, cs, PairAt(c));
      var i :| 0 <= i < |pairs| && pairs[i] == PairAt(c);
      RemovedPerPair(g1, pairs, weights, i);
    }
  }

  /** The graph the block loop leaves: the diagonals of the fully connected blocks of `cs` are gone. */
  function WithoutCleared(g: Graph<Coord>, cs: seq<Coord>): Graph<Coord> {
    map n | n in g :: set m | m in g[n] && !Cleared(g, cs, n, m)
  }

  /**
   * After the heuristics, the diagonals of the block at `c` are what
   * `apply_heuristics` makes of their weights on `g1`: each survives exactly
   * when it is strictly heavier than the other, so a tie removes both.
   */
  ghost predicate HeavierKept(g1: Graph<Coord>, h: Graph<Coord>, c: Coord)
    requires Falling(c).0 in g1 && Falling(c).1 in g1 && Rising(c).0 in g1 && Rising(c).1 in g1
  {
    var wt := PairWeights(g1, PairAt(c));
    && (HasEdge(h, Falling(c).0, Falling(c).1) <==> wt.1 < wt.0)
    && (HasEdge(h, Rising(c).0, Rising(c).1) <==> wt.0 < wt.1)
  }

  /**
   * `_remove_diagonals`: resolve every 2x2 block of the picture, then let
   * the heuristics settle the ambiguous pairs. The pass raises exactly when
   * some block is malformed. Otherwise every pixel stays, only diagonals
   * go, a fully connected block loses both, an ambiguous block at least
   * one, and the graph stays simple.
   */
  method RemoveDiagonals(g: Graph<Coord>, pic: Picture) returns (r: Result<Graph<Coord>>)
    requires Simple(g)
    ensures r.Err? <==> AnyMalformed(g, BlockCorners(pic, BlockSize))
    ensures r.Err? ==> r.error == RuntimeError
    ensures r.Ok? ==> r.value.Keys == g.Keys && Simple(r.value)
    ensures r.Ok? ==> forall x, y :: HasEdge(r.value, x, y) ==> HasEdge(g, x, y)
    ensures r.Ok? ==> forall x, y :: HasEdge(g, x, y) && !IsDiagonal(x, y) ==> HasEdge(r.value, x, y)
    ensures r.Ok? ==> forall c :: c in BlockCorners(pic, BlockSize) ==>
              && (FullyConnected(g, c) ==> !HasEdge(r.value, Falling(c).0, Falling(c).1) && !HasEdge(r.value, Rising(c).0, Rising(c).1))
              && (Ambiguous(g, c) ==> !HasEdge(r.value, Falling(c).0, Falling(c).1) || !HasEdge(r.value, Rising(c).0, Rising(c).1))
    ensures r.Ok? ==> forall c :: c in BlockCorners(pic, BlockSize) && Ambiguous(g, c) ==>
              HeavierKept(WithoutCleared(g, BlockCorners(pic, BlockSize)), r.value, c)
  {
    var cs := BlockCorners(pic, BlockSize);
    BlockCornersDistinct(pic, BlockSize);
    ResolveBlocksSpec(g, cs);
    var resolved := ResolveBlocks(g, cs);
    if resolved.Err? {
      return Err(resolved.error);
    }
    var (g1, pairs) := resolved.value;
    ResolvedSimple(g, g1, cs);
    ResolvedPairsPresent(g, g1, cs, pairs);
    var weights;
    r, weights := ApplyHeuristics(g1, pairs);
    var h := r.value;
    forall c | c in cs
      ensures && (FullyConnected(g, c) ==> !HasEdge(h, Falling(c).0, Falling(c).1) && !HasEdge(h, Rising(c).0, Rising(c).1))
              && (Ambiguous(g, c) ==> !HasEdge(h, Falling(c).0, Falling(c).1) || !HasEdge(h, Rising(c).0, Rising(c).1))
    {
      DiagonalsResolved(g, g1, cs, pairs, weights, h, c);
    }
    HeuristicsKeepSimple(g, g1, cs, pairs, weights);
    HeuristicsKeepSides(g, g1, cs, pairs, weights);
    ResolvedIsWithoutCleared(g, g1, cs);
    AmbiguousByWeight(g, g1, cs, pairs, h);
  }

  /** Each ambiguous block's pair is handed over, so the heuristics' verdict on the pair is the block's. */
  lemma AmbiguousByWeight(g: Graph<Coord>, g1: Graph<Coord>, cs: seq<Coord>, pairs: seq<DiagonalPair>, h: Graph<Coord>)
    requires Simple(g1) && PairsPresent(g1, pairs)
    requires forall p :: p in pairs <==> Listed(g, cs, p)
    requires forall k :: 0 <= k < |pairs| ==>
               && (HasEdge(h, pairs[k].first.0, pairs[k].first.1) <==> PairWeights(g1, pairs[k]).1 < PairWeights(g1, pairs[k]).0)
               && (HasEdge(h, pairs[k].second.0, pairs[k].second.1) <==> PairWeights(g1, pairs[k]).0 < PairWeights(g1, pairs[k]).1)
    ensures forall c :: c in cs && Ambiguous(g, c) ==> PairAt(c) in pairs && HeavierKept(g1, h, c)
  {
    forall c | c in cs && Ambiguous(g, c)
      ensures PairAt(c) in pairs && HeavierKept(g1, h, c)
    {
      assert Listed(g, cs, PairAt(c));
      var i :| 0 <= i < |pairs| && pairs[i] == PairAt(c);
    }
  }

  /** The graph the block loop leaves is the original without the cleared diagonals. */
  lemma ResolvedIsWithoutCleared(g: Graph<Coord>, g1: Graph<Coord>, cs: seq<Coord>)
    requires g1.Keys == g.Keys
    requires forall x, y :: HasEdge(g1, x, y) <==> HasEdge(g, x, y) && !Cleared(g, cs, x, y)
    ensures g1 == WithoutCleared(g, cs)
  {
    var w := WithoutCleared(g, cs);
    forall x, y
      ensures HasEdge(g1, x, y) <==> HasEdge(w, x, y)
    {
    }
    GraphExt(g1, w);
  }

  /** Every edge the heuristics may remove is a diagonal. */
  lemma ChosenIsDiagonal(g: Graph<Coord>, cs: seq<Coord>, pairs: seq<DiagonalPair>, weights: seq<(int, int)>, x: Coord, y: Coord)
    requires |weights| == |pairs|
    requires forall p :: p in pairs ==> Listed(g, cs, p)
    requires ChosenInAny(pairs, weights, x, y)
    ensures IsDiagonal(x, y)
  {
    var k :| 0 <= k < |pairs| && Chosen(pairs[k], weights[k], x, y);
    assert pairs[k] in pairs;
    var j :| 0 <= j < |cs| && Ambiguous(g, cs[j]) && pairs[k] == PairAt(cs[j]);
  }

  /** After both stages the graph is a simple graph on the same pixels, with edges only of the original graph. */
  lemma HeuristicsKeepSimple(g: Graph<Coord>, g1: Graph<Coord>, cs: seq<Coord>, pairs: seq<DiagonalPair>, weights: seq<(int, int)>)
    requires Simple(g) && g1.Keys == g.Keys && |weights| == |pairs|
    requires forall x, y :: HasEdge(g1, x, y) <==> HasEdge(g, x, y) && !Cleared(g, cs, x, y)
    requires PairsPresent(g1, pairs) && PairsDistinct(pairs)
    ensures var r := RemoveLightest(g1, pairs, weights);
            && r.Ok? && r.value.Keys == g.Keys && Simple(r.value)
            && forall x, y :: HasEdge(r.value, x, y) ==> HasEdge(g, x, y)
  {
    RemoveLightestSpec(g1, pairs, weights);
    var h := RemoveLightest(g1, pairs, weights).value;
    forall x, y | HasEdge(h, x, y)
      ensures HasEdge(g, x, y) && HasEdge(h, y, x)
    {
      assert HasEdge(g, y, x) && HasEdge(g1, y, x);
      assert !ChosenInAny(pairs, weights, y, x);
    }
    SymmetricSubgraphSimple(g, h);
  }

  /** Neither stage removes an edge that is not a diagonal. */
  lemma HeuristicsKeepSides(g: Graph<Coord>, g1: Graph<Coord>, cs: seq<Coord>, pairs: seq<DiagonalPair>, weights: seq<(int, int)>)
    requires |weights| == |pairs|
    requires forall x, y :: HasEdge(g1, x, y) <==> HasEdge(g, x, y) && !Cleared(g, cs, x, y)
    requires forall p :: p in pairs ==> Listed(g, cs, p)
    requires PairsPresent(g1, pairs) && PairsDistinct(pairs)
    ensures var r := RemoveLightest(g1, pairs, weights);
            r.Ok? ==> forall x, y :: HasEdge(g, x, y) && !IsDiagonal(x, y) ==> HasEdge(r.value, x, y)
  {
    RemoveLightestSpec(g1, pairs, weights);
    var h := RemoveLightest(g1, pairs, weights).value;
    forall x, y | HasEdge(g, x, y) && !IsDiagonal(x, y)
      ensures HasEdge(h, x, y)
    {
      if ChosenInAny(pairs, weights, x, y) {
        ChosenIsDiagonal(g, cs, pairs, weights, x, y);
      }
    }
  }

  /** The blocks are listed once each. */
  lemma BlockCornersDistinct(pic: Picture, size: int)
    ensures Distinct(BlockCorners(pic, size))
  {
    var bw, bh := pic.width - size + 1, pic.height - size + 1;
    if bw <= 0 || bh <= 0 {
      PixelCoordsEmpty(bw, bh);
    } else {
      PixelCoordsOrder(bw, bh);
      forall i, j | 0 <= i < j < |BlockCorners(pic, size)|
        ensures BlockCorners(pic, size)[i] != BlockCorners(pic, size)[j]
      {
        PixelCoordsDistinct(bw, bh, i, j);
      }
    }
  }

  /** A graph on the same pixels whose edges are some of a simple graph's, taken both ways round, is simple. */
  lemma SymmetricSubgraphSimple(g: Graph<Coord>, h: Graph<Coord>)
    requires Simple(g) && h.Keys == g.Keys
    requires forall x, y :: HasEdge(h, x, y) ==> HasEdge(g, x, y) && HasEdge(h, y, x)
    ensures Simple(h)
  {
    forall a, b | a in h && b in h[a]
      ensures b in h && a in h[b] && a != b
    {
      assert HasEdge(h, a, b);
    }
  }

  /** The graph left by the block loop is simple. */
  lemma ResolvedSimple(g: Graph<Coord>, g1: Graph<Coord>, cs: seq<Coord>)
    requires Simple(g) && g1.Keys == g.Keys
    requires forall x, y :: HasEdge(g1, x, y) <==> HasEdge(g, x, y) && !Cleared(g, cs, x, y)
    ensures Simple(g1)
  {
    forall x, y | HasEdge(g1, x, y)
      ensures HasEdge(g1, y, x)
    {
      assert HasEdge(g, y, x);
    }
    SymmetricSubgraphSimple(g, g1);
  }

  /** Both diagonals of every ambiguous pair survive the block loop, for the heuristics to weigh. */
  lemma ResolvedPairsPresent(g: Graph<Coord>, g1: Graph<Coord>, cs: seq<Coord>, pairs: seq<DiagonalPair>)
    requires forall x, y :: HasEdge(g1, x, y) <==> HasEdge(g, x, y) && !Cleared(g, cs, x, y)
    requires forall p :: p in pairs <==> exists k :: 0 <= k < |cs| && Ambiguous(g, cs[k]) && p == PairAt(cs[k])
    ensures PairsPresent(g1, pairs)
  {
    forall i | 0 <= i < |pairs|
      ensures HasEdge(g1, pairs[i].first.0, pairs[i].first.1) && HasEdge(g1, pairs[i].second.0, pairs[i].second.1)
    {
      assert pairs[i] in pairs;
      var k :| 0 <= k < |cs| && Ambiguous(g, cs[k]) && pairs[i] == PairAt(cs[k]);
      var c := cs[k];
      forall x, y | OnDiagonal(c, x, y)
        ensures !Cleared(g, cs, x, y)
      {
        if Cleared(g, cs, x, y) {
          var j :| 0 <= j < |cs| && FullyConnected(g, cs[j]) && OnDiagonal(cs[j], x, y);
          DiagonalOwner(c, cs[j], x, y);
        }
      }
      assert OnDiagonal(c, Falling(c).0, Falling(c).1) && OnDiagonal(c, Rising(c).0, Rising(c).1);
    }
  }

  function Grey(k: int): Rgb {
    Rgb(k, k, k)
  }

  /** Two touching grey pixels are joined exactly when their levels differ by at most 48. */
  lemma GreyEdge(pic: Picture, a: Coord, b: Coord, la: int, lb: int)
    requires Consistent(pic) && InPicture(pic, a) && InPicture(pic, b) && Neighbours8(a, b)
    requires IsByte(la) && IsByte(lb) && PixelAt(pic, a) == Grey(la) && PixelAt(pic, b) == Grey(lb)
    ensures HasEdge(SimilarityGraph(pic), a, b) <==> Abs(la - lb) <= 48
  {
    PixelsSimilarSymmetric();
    SimilarityGraphSpec(pic, PixelsSimilar);
    GreysSimilar(la, lb);
  }

  /** Both diagonals and exactly one side make a malformed block, and the block loop stops at it. */
  lemma DiagonalsAndOneSide(g: Graph<Coord>, c: Coord, cs: seq<Coord>)
    requires HasEdge(g, c, Coord(c.x + 1, c.y + 1)) && HasEdge(g, Coord(c.x, c.y + 1), Coord(c.x + 1, c.y))
    requires HasEdge(g, Coord(c.x + 1, c.y), Coord(c.x + 1, c.y + 1))
    requires !HasEdge(g, c, Coord(c.x, c.y + 1)) && !HasEdge(g, c, Coord(c.x + 1, c.y))
    requires !HasEdge(g, Coord(c.x, c.y + 1), Coord(c.x + 1, c.y + 1))
    requires 0 < |cs| && cs[0] == c
    ensures Malformed(g, c)
    ensures ResolveBlocks(g, cs) == Err(RuntimeError)
  {
    BlockAtTwo(c);
    assert EdgeCount(g, c) == 3 && DiagonalCount(g, c) == 2;
  }

  /** A 2x2 picture is a single block. */
  lemma OneBlock(pic: Picture)
    requires pic.width == 2 && pic.height == 2
    ensures BlockCorners(pic, BlockSize) == [Coord(0, 0)]
  {
    PixelCoordsEmpty(1, 0);
    assert Row(1, 0) == [Coord(0, 0)];
  }

  /**
   * Similarity is not transitive, so a block can hold both diagonals and
   * just one side: in a 2x2 grey picture with levels 0 and 60 on the top
   * row and 100 and 40 below, both diagonals join levels 40 apart and only
   * the right side joins levels within 48, and the block loop raises the
   * `RuntimeError` its message calls unexpected.
   */
  lemma MalformedBlockRaises(pic: Picture)
    requires Consistent(pic) && pic.width == 2 && pic.height == 2
    requires PixelAt(pic, Coord(0, 0)) == Grey(0) && PixelAt(pic, Coord(1, 0)) == Grey(60)
    requires PixelAt(pic, Coord(0, 1)) == Grey(100) && PixelAt(pic, Coord(1, 1)) == Grey(40)
    ensures ResolveBlocks(SimilarityGraph(pic), BlockCorners(pic, BlockSize)) == Err(RuntimeError)
  {
    var g := SimilarityGraph(pic);
    var tl, bl, tr, br := Coord(0, 0), Coord(0, 1), Coord(1, 0), Coord(1, 1);
    OneBlock(pic);
    GreyEdge(pic, tl, br, 0, 40);
    GreyEdge(pic, bl, tr, 100, 60);
    GreyEdge(pic, tr, br, 60, 40);
    GreyEdge(pic, tl, bl, 0, 100);
    GreyEdge(pic, tl, tr, 0, 60);
    GreyEdge(pic, bl, br, 100, 40);
    DiagonalsAndOneSide(g, tl, BlockCorners(pic, BlockSize));
  }
}
