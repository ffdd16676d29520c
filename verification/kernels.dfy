/**
 * The whole-image kernels: each is the shared 2x scaling driven by its
 * per-pixel rule, together with the properties of the full output.
 */
module Kernels {
  import opened Raster
  import opened Scale
  import opened Epx
  import opened Eagle
  import opened Pixel
  import opened Sai
  import opened Hq2x
  import opened Xbr
  import opened Yuv

  /** `scaleEpx`. */
  function ScaleEpx<T(==)>(src: Image<T>): (dst: Image<T>)
    requires Valid(src)
    ensures Valid(dst) && dst.width == 2 * src.width && dst.height == 2 * src.height
  {
    Scale2x(src, EpxAt(src))
  }

  /** `scaleAdvMame`. */
  function ScaleAdvMame<T(==)>(src: Image<T>): (dst: Image<T>)
    requires Valid(src)
    ensures Valid(dst) && dst.width == 2 * src.width && dst.height == 2 * src.height
  {
    Scale2x(src, AdvMameAt(src))
  }

  /** The two kernels produce the same raster. */
  lemma ScaleEpxIsAdvMame<T>(src: Image<T>)
    requires Valid(src)
    ensures ScaleEpx(src) == ScaleAdvMame(src)
  {
    EpxAtIsAdvMameAtAll(src);
    Scale2xExt(src, EpxAt(src), AdvMameAt(src));
  }

  /** EPX only copies pixels of the source; it never blends. */
  lemma ScaleEpxPalette<T>(src: Image<T>)
    requires Valid(src)
    ensures forall i :: 0 <= i < |ScaleEpx(src).data| ==> ScaleEpx(src).data[i] in src.data
  {
    Scale2xPalette(src, EpxAt(src));
  }

  /** A uniform raster scales to a uniform raster of the same colour. */
  lemma ScaleEpxUniform<T>(src: Image<T>, c: T)
    requires Valid(src) && Uniform(src, c)
    ensures Uniform(ScaleEpx(src), c)
  {
    EpxAtUniformAll(src, c);
    Scale2xUniform(src, EpxAt(src), c);
  }

  lemma ScaleAdvMameUniform<T>(src: Image<T>, c: T)
    requires Valid(src) && Uniform(src, c)
    ensures Uniform(ScaleAdvMame(src), c)
  {
    ScaleEpxIsAdvMame(src);
    ScaleEpxUniform(src, c);
  }

  /** `scaleEagle`. */
  function ScaleEagle<T(==)>(src: Image<T>): (dst: Image<T>)
    requires Valid(src)
    ensures Valid(dst) && dst.width == 2 * src.width && dst.height == 2 * src.height
  {
    Scale2x(src, EagleAt(src))
  }

  /** Eagle only copies pixels of the source. */
  lemma ScaleEaglePalette<T>(src: Image<T>)
    requires Valid(src)
    ensures forall i :: 0 <= i < |ScaleEagle(src).data| ==> ScaleEagle(src).data[i] in src.data
  {
    EagleAtPaletteAll(src);
    Scale2xPalette(src, EagleAt(src));
  }

  /** A uniform raster scales to a uniform raster of the same colour. */
  lemma ScaleEagleUniform<T>(src: Image<T>, c: T)
    requires Valid(src) && Uniform(src, c)
    ensures Uniform(ScaleEagle(src), c)
  {
    EagleAtUniformAll(src, c);
    Scale2xUniform(src, EagleAt(src), c);
  }

  /** A 1x1 raster yields four copies of its pixel: NEAREST clamps every neighbour to it. */
  lemma ScaleEagleSingle<T>(src: Image<T>)
    requires Valid(src) && src.width == 1 && src.height == 1
    ensures ScaleEagle(src).data == [src.data[0], src.data[0], src.data[0], src.data[0]]
  {
    ScaleEagleUniform(src, src.data[0]);
  }

  /** `scale2xSaI`, on rasters of byte colours. */
  function Scale2xSaI(src: Image<Rgb>): (dst: Image<Rgb>)
    requires Valid(src) && ValidPixels(src.data)
    ensures Valid(dst) && dst.width == 2 * src.width && dst.height == 2 * src.height
  {
    SaiAtAll(src);
    Scale2x(src, SaiAt(src))
  }

  /** Every source pixel survives unchanged at the top-left of its block. */
  lemma Scale2xSaITopLeft(src: Image<Rgb>, x: int, y: int)
    requires Valid(src) && ValidPixels(src.data) && InBounds(src, x, y)
    ensures var dst := Scale2xSaI(src);
            dst.data[Offset(dst, 2 * x, 2 * y)] == src.data[Offset(src, x, y)]
  {
    SaiAtAll(src);
    Scale2xAt(src, SaiAt(src), x, y);
    SaiBlockTopLeft(src, x, y);
  }

  /** Blending never leaves the byte range. */
  lemma Scale2xSaIValid(src: Image<Rgb>)
    requires Valid(src) && ValidPixels(src.data)
    ensures ValidPixels(Scale2xSaI(src).data)
  {
    SaiAtValidAll(src);
    Scale2xPreserves(src, SaiAt(src), ValidRgb);
  }

  /** A uniform raster scales to a uniform raster of the same colour. */
  lemma Scale2xSaIUniform(src: Image<Rgb>, c: Rgb)
    requires Valid(src) && ValidPixels(src.data) && Uniform(src, c)
    ensures Uniform(Scale2xSaI(src), c)
  {
    SaiAtUniformAll(src, c);
    Scale2xUniform(src, SaiAt(src), c);
  }

  /** `scaleHq2x`. */
  function ScaleHq2x(src: Image<Rgb>): (dst: Image<Rgb>)
    requires Valid(src)
    ensures Valid(dst) && dst.width == 2 * src.width && dst.height == 2 * src.height
  {
    Scale2x(src, Hq2xAt(src))
  }

  /** A uniform raster scales to a uniform raster of the same colour. */
  lemma ScaleHq2xUniform(src: Image<Rgb>, c: Rgb)
    requires Valid(src) && Uniform(src, c)
    ensures Uniform(ScaleHq2x(src), c)
  {
    Hq2xAtUniformAll(src, c);
    Scale2xUniform(src, Hq2xAt(src), c);
  }

  /** The integer blends never leave the byte range. */
  lemma ScaleHq2xValid(src: Image<Rgb>)
    requires Valid(src) && ValidPixels(src.data)
    ensures ValidPixels(ScaleHq2x(src).data)
  {
    Hq2xAtValidAll(src);
    Scale2xPreserves(src, Hq2xAt(src), ValidRgb);
  }

  /** `scaleXbr`, on rasters of byte colours. */
  function ScaleXbr(src: Image<Rgb>): (dst: Image<Rgb>)
    requires Valid(src) && ValidPixels(src.data)
    ensures Valid(dst) && dst.width == 2 * src.width && dst.height == 2 * src.height
  {
    XbrAtValidAll(src);
    Scale2x(src, XbrAt(src))
  }

  /** Where no edge is detected in any direction, the pixel is simply duplicated. */
  lemma ScaleXbrNoEdge(src: Image<Rgb>, x: int, y: int)
    requires Valid(src) && ValidPixels(src.data) && InBounds(src, x, y)
    requires forall dir :: !Edge(Xbr.ContextAt(src, x, y), dir, Dist)
    ensures var dst, p := ScaleXbr(src), src.data[Offset(src, x, y)];
            && dst.data[Offset(dst, 2 * x, 2 * y)] == p && dst.data[Offset(dst, 2 * x + 1, 2 * y)] == p
            && dst.data[Offset(dst, 2 * x, 2 * y + 1)] == p && dst.data[Offset(dst, 2 * x + 1, 2 * y + 1)] == p
  {
    XbrAtValidAll(src);
    var n := Xbr.ContextAt(src, x, y);
    assert !Edge(n, BotRight, Dist) && !Edge(n, BotLeft, Dist) && !Edge(n, TopLeft, Dist) && !Edge(n, TopRight, Dist);
    XbrNoEdge(n, Dist);
    assert XbrAt(src)(x, y) == XbrBlock(src, x, y);
    Scale2xAt(src, XbrAt(src), x, y);
  }

  /** Blending never leaves the byte range. */
  lemma ScaleXbrValid(src: Image<Rgb>)
    requires Valid(src) && ValidPixels(src.data)
    ensures ValidPixels(ScaleXbr(src).data)
  {
    XbrAtValidAll(src);
    Scale2xPreserves(src, XbrAt(src), ValidRgb);
  }

  /** A uniform raster scales to a uniform raster of the same colour. */
  lemma ScaleXbrUniform(src: Image<Rgb>, c: Rgb)
    requires Valid(src) && ValidPixels(src.data) && Uniform(src, c)
    ensures Uniform(ScaleXbr(src), c)
  {
    XbrAtUniformAll(src, c);
    Scale2xUniform(src, XbrAt(src), c);
  }
}
