/**
 * The raster abstraction every kernel reads from and writes to: a row-major
 * grid of `width * height` elements with a bounds-safe accessor that resolves
 * out-of-range coordinates by one of two policies.
 */
module Raster {
  import opened Arith

  /** What `SafeAccess` does with a coordinate outside the raster. */
  datatype Strategy = Zero | Nearest

  /** The policy used when a caller does not name one. */
  const DefaultStrategy: Strategy := Nearest

  datatype Image<T> = Image(width: int, height: int, data: seq<T>)

  /** The representation invariant: one stored element per coordinate. */
  predicate Valid<T>(img: Image<T>) {
    0 <= img.width && 0 <= img.height && |img.data| == img.width * img.height
  }

  predicate NonEmpty<T>(img: Image<T>) {
    1 <= img.width && 1 <= img.height
  }

  predicate InBounds<T>(img: Image<T>, x: int, y: int) {
    0 <= x < img.width && 0 <= y < img.height
  }

  /** `std::clamp(v, lo, hi)`; the C++ call is undefined when `hi < lo`. */
  function Clamp(v: int, lo: int, hi: int): (r: int)
    requires lo <= hi
    ensures lo <= r <= hi
    ensures lo <= v <= hi ==> r == v
    ensures v < lo ==> r == lo
    ensures hi < v ==> r == hi
  {
    if v < lo then lo else if hi < v then hi else v
  }

  /** Row-major position of `(x, y)` in the data vector. */
  function Offset<T>(img: Image<T>, x: int, y: int): (o: int)
    ensures InBounds(img, x, y) ==> 0 <= o < img.width * img.height
  {
    OffsetBound(img.width, img.height, x, y);
    x + y * img.width
  }

  lemma OffsetBound(w: int, h: int, x: int, y: int)
    ensures 0 <= x < w && 0 <= y < h ==> 0 <= x + y * w < w * h
  {
    if 0 <= x < w && 0 <= y < h {
      assert y * w <= (h - 1) * w by { MulMonotone(y, h - 1, w); }
      assert (h - 1) * w + w == h * w;
    }
  }

  /** Distinct in-bounds coordinates occupy distinct cells. */
  lemma OffsetInjective<T>(img: Image<T>, x: int, y: int, x': int, y': int)
    requires InBounds(img, x, y) && InBounds(img, x', y')
    requires Offset(img, x, y) == Offset(img, x', y')
    ensures x == x' && y == y'
  {
    DivModUnique(img.width, y, x);
    DivModUnique(img.width, y', x');
  }

  /** `Image(w, h)`: the given size, every element the default value `zero`. */
  function Sized<T>(w: nat, h: nat, zero: T): (img: Image<T>)
    ensures Valid(img) && img.width == w && img.height == h
    ensures forall i :: 0 <= i < |img.data| ==> img.data[i] == zero
  {
    Image(w, h, seq(w * h, _ => zero))
  }

  /** `Image()`: the default image is a single default-valued pixel. */
  function Default<T>(zero: T): (img: Image<T>)
    ensures Valid(img) && NonEmpty(img)
    ensures img.width == 1 && img.height == 1 && img.data == [zero]
  {
    Sized(1, 1, zero)
  }

  /**
   * `safeAccess(x, y, strategy)`. `zero` stands for `T{}`. Under NEAREST
   * with an empty raster the C++ clamp is undefined, hence the requires.
   */
  function SafeAccess<T>(img: Image<T>, x: int, y: int, strategy: Strategy, zero: T): (r: T)
    requires Valid(img)
    requires strategy == Nearest ==> NonEmpty(img)
    ensures InBounds(img, x, y) ==> r == img.data[Offset(img, x, y)]
    ensures !InBounds(img, x, y) && strategy == Zero ==> r == zero
    ensures strategy == Nearest ==>
              r == img.data[Offset(img, Clamp(x, 0, img.width - 1), Clamp(y, 0, img.height - 1))]
    ensures strategy == Nearest ==> r in img.data
  {
    var outOfBounds := (x < 0 || x >= img.width) || (y < 0 || y >= img.height);
    if outOfBounds then
      match strategy
      case Zero => zero
      case Nearest =>
        img.data[Offset(img, Clamp(x, 0, img.width - 1), Clamp(y, 0, img.height - 1))]
    else
      img.data[Offset(img, x, y)]
  }

  /** The cell a NEAREST read of `(x, y)` lands on. */
  function NearestIndex<T>(img: Image<T>, x: int, y: int): (i: int)
    requires Valid(img) && NonEmpty(img)
    ensures 0 <= i < |img.data|
  {
    Offset(img, Clamp(x, 0, img.width - 1), Clamp(y, 0, img.height - 1))
  }

  /** The NEAREST read every kernel performs. */
  function Sample<T>(img: Image<T>, x: int, y: int): (r: T)
    requires Valid(img) && NonEmpty(img)
    ensures r in img.data
  {
    img.data[NearestIndex(img, x, y)]
  }

  /** `Sample` is `safeAccess` with the default strategy; `T{}` is never consulted. */
  lemma SampleIsSafeAccess<T>(img: Image<T>, x: int, y: int, zero: T)
    requires Valid(img) && NonEmpty(img)
    ensures Sample(img, x, y) == SafeAccess(img, x, y, DefaultStrategy, zero)
    ensures InBounds(img, x, y) ==> Sample(img, x, y) == img.data[Offset(img, x, y)]
  {
  }

  /** Every element of the raster is `c`. */
  ghost predicate Uniform<T>(img: Image<T>, c: T) {
    forall i :: 0 <= i < |img.data| ==> img.data[i] == c
  }

  lemma SampleUniform<T>(img: Image<T>, c: T, x: int, y: int)
    requires Valid(img) && NonEmpty(img) && Uniform(img, c)
    ensures Sample(img, x, y) == c
  {
  }

  /** On a 1x1 raster every NEAREST read yields the single pixel. */
  lemma SampleSingle<T>(img: Image<T>, x: int, y: int)
    requires Valid(img) && img.width == 1 && img.height == 1
    ensures Sample(img, x, y) == img.data[0]
  {
  }
}
