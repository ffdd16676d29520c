# pixel-art-upscaling, modelled in Dafny

This project models the decision logic of MrMagnifico's pixel-art
upscaling repository. It covers two halves.

- **The C++ 2x kernels.**
  - The `Image<T>` raster: row-major storage, `getImageOffset`, and
    `safeAccess` under the ZERO and NEAREST out-of-bounds policies.
  - The shared helpers `threeOrMoreIdentical`, `rgbToYuv` (both
    overloads) and `bilinearInterpolation`.
  - The kernels EPX, AdvMAME2x, Eagle, 2xSaI (with `majorityMatch`),
    HQ2x (the YUV difference mask, the blends and the clause chains) and
    xBR (the edge rules, `new_color` and the corner updates).
  - Each kernel maps source pixel `(x, y)` to the 2x2 block at
    `(2x, 2y)` of a fresh `2w x 2h` raster.
- **The structural passes of the Python Kopf–Lischinski vectorizer.**
  - The helpers of `utils.py`.
  - The similarity graph and the classification of crossing diagonals in
    2x2 blocks.
  - The curve, sparse and island heuristics and the removal of the
    lighter diagonal.
  - The corner-preserving collapse that ends `_deform_pixel_grid`.
  - The B-spline bookkeeping of `geometry.py`: degree and knot
    consistency, the wrap of closed splines under `move_point`,
    `reversed`, `curve_to_closed_bspline`, and `Path.make_path`.

Modules follow the source files:

| module | file | models |
|---|---|---|
| `Results` | results.dfy | Python exceptions as error values |
| `Arith` | arith.dfy | helper arithmetic facts |
| `Raster` | raster.dfy | framework/include/framework/image.h |
| `Pixel` | pixel.dfy | pixel triples, `glm::mix` at quarter weights, src/common.hpp |
| `Yuv` | yuv.dfy | `rgbToYuv` and `rgb_to_yuv`, `pixels_similar` |
| `Scale` | scale.dfy | the shared 2x loop and the neighbourhood reads |
| `Epx`, `Eagle`, `Sai`, `Hq2x`, `Xbr` | epx.dfy, eagle.dfy, sai.dfy, hq2x.dfy, xbr.dfy | one kernel each |
| `Kernels` | kernels.dfy | properties shared across the kernels |
| `PyList` | pylist.dfy | Python indexing, slicing and `%` |
| `Utils` | utils.dfy | src/utils.py |
| `Graphs` | graph.dfy | the networkx graph operations the code uses |
| `Kopf` | kopf.dfy | src/kopf_lichinski.py |
| `PixelGrid` | deform.dfy | the collapse in `_deform_pixel_grid` |
| `Heuristics` | heuristics.dfy | src/heuristics.py |
| `Geometry` | geometry.dfy | src/geometry.py |

Pixels are byte triples and rasters are sequences. Graphs are maps from a
node to its set of neighbours. Operations that raise in the source return
a `Result` that names the exception.

How the model reads the source:

- **`glm::mix`.** The kernels call it only with weights 0.25, 0.5 and
  0.75, on byte channels. `float(x) * (1 - t) + float(y) * t` is then
  exact, and the cast back truncates. `Pixel.Mix` computes exactly that
  on integers, so `mix(c, c, t) == c` is a lemma rather than an
  assumption.
- **`rgbToYuv`.** The coefficients are exact thousandths, and each
  component is truncated toward zero. The same definition serves
  src/hq2x.hpp, src/common.hpp and src/utils.py, which compute it the
  same way.
- **Order.** Iteration order over Python sets and the slope order of
  outlines are not modelled:
  - `make_path` may step to any unvisited neighbour;
  - the heuristics take the order of a pair's candidates as a parameter.
- **Exact numbers.** Knots are exact reals. The half and quarter offsets
  of `_sparse_offset` are exact, because they are dyadic.
- **Code over textbook.** Where the code departs from the published
  algorithm, the model follows the code:
  - Eagle's top-left rule tests the top row (src/eagle.hpp:33);
  - the first 2xSaI case sets `bottom_interp` to `A` in both arms
    (src/2xsai.hpp:54-55);
  - HQ2x uses the reduced clause chains written in src/hq2x.hpp.

  The one exception is the curves heuristic, whose slip is listed under
  Findings: edge weights use the corrected curve weight, and the value as
  written is modelled beside it (`Heuristics.ComputeSingleWeightAsWritten`).
- **Reachable raises.** The `RuntimeError` for a block that has neither
  two crossing diagonals nor one at src/kopf_lichinski.py:88 is
  reachable. `Kopf.MalformedBlockRaises` exhibits a picture that reaches
  it.
- **`move_point` limits.**
  - `move_point` keeps the wrap only while the degree is at most half the
    points (`Geometry.MovePointBreaksLongWrap`).
  - It divides by zero when the degree equals the number of points
    (`Geometry.MovePointNothingUnwrapped`).
  - `curve_to_closed_bspline` never builds either case from a path of two
    or more vertices, and `make_path` returns only such paths.
- **`polyline_to_closed_bspline`.** It has the same body as
  `curve_to_closed_bspline`, and both are modelled by
  `Geometry.CurveToClosedBSpline`.

## Model

| member | source | states |
|---|---|---|
| `Raster.Clamp` | framework/include/framework/image.h:164 | `std::clamp` with ordered bounds: the result lies in `[lo, hi]`, equals the value when it is in range, and equals the bound it passed otherwise |
| `Raster.Offset` | framework/include/framework/image.h:152-153 | `getImageOffset` maps every in-bounds coordinate to a cell of the data vector |
| `Raster.OffsetInjective` | framework/include/framework/image.h:152-153 | two in-bounds coordinates with the same offset are the same coordinate, so the row-major layout never aliases pixels |
| `Raster.Sized` | framework/include/framework/image.h:115-121 | the sizing constructor gives an image of exactly the requested size whose every cell is the default value |
| `Raster.Default` | framework/include/framework/image.h:29 | the default constructor gives a 1x1 image holding one default pixel |
| `Raster.SafeAccess` | framework/include/framework/image.h:155-169 | in bounds it reads the addressed cell; out of bounds ZERO yields the default value and NEAREST reads the cell at the clamped coordinates, which is always a pixel of the image |
| `Raster.NearestIndex` | framework/include/framework/image.h:163-165 | the clamped NEAREST offset is always a valid index of a non-empty image |
| `Raster.Sample` | framework/include/framework/image.h:156-169 | a NEAREST read of a non-empty image always yields one of its pixels |
| `Raster.SampleIsSafeAccess` | framework/include/framework/image.h:33 | the kernels' reads are `safeAccess` with the default NEAREST strategy, and in bounds they are the plain cell |
| `Raster.SampleUniform` | framework/include/framework/image.h:156-169 | every read of a single-coloured image, in or out of bounds, yields that colour |
| `Raster.SampleSingle` | framework/include/framework/image.h:163-165 | on a 1x1 image every coordinate clamps to the one pixel |
| `Pixel.MixChannel` | src/common.hpp:59 | one channel of `glm::mix` at a quarter weight lies between its two inputs and is the input itself when both agree |
| `Pixel.Mix` | src/common.hpp:59-61 | `glm::mix` on unsigned colours keeps each channel between the two inputs, keeps byte colours byte colours, and is the identity on equal inputs |
| `Pixel.Bilinear` | src/common.hpp:56-62 | bilinear interpolation stays inside the per-channel range of its four corners, keeps byte colours byte colours, and returns the corner colour when all four agree |
| `Pixel.CornersInHull` | src/common.hpp:56-62 | each of the four corners lies inside the corners' range |
| `Pixel.HullConvex` | src/common.hpp:56-62 | a colour between two colours of the corners' range is itself in the range, which is why the nested mixes stay inside it |
| `Pixel.ThreeOrMoreIdenticalMeaning` | src/common.hpp:16-42 | the 24-way disjunction holds exactly when some value occurs at least three times among the four arguments |
| `Pixel.ThreeOrMoreIdenticalPermutation` | src/common.hpp:16-42 | the test depends only on the multiset of the four arguments, not their order |
| `Pixel.ThreeOrMoreIdenticalNegative` | src/common.hpp:16-42 | four distinct values, or two disjoint pairs, never pass the test |
| `Yuv.RgbToYuv` | src/common.hpp:64-69 | the conversion maps byte colours to byte YUV components |
| `Yuv.Unpack` | src/common.hpp:71-74 | the three masked and shifted channels of a packed word are bytes |
| `Yuv.RgbToYuvPacked` | src/common.hpp:71-80 | the packed conversion fits in 24 bits and unpacks to the YUV of the unpacked colour |
| `Yuv.PackRoundTrip` | src/common.hpp:79 | packing three bytes as `(y << 16) + (u << 8) + v` and masking them out again gives them back |
| `Yuv.PackedIgnoresTopByte` | src/common.hpp:71-80 | the packed conversion ignores bits 24-31 of its input |
| `Yuv.UnpackIgnoresTopByte` | src/common.hpp:72-74 | the channel masks ignore bits 24-31 |
| `Yuv.SimilarIsNoDifference` | src/utils.py:25-40 | `pixels_similar` of the vectorizer is exactly the negation of `yuvDifference` of HQ2x, both with thresholds 48, 7 and 6 |
| `Yuv.YuvDifferenceIrreflexiveSymmetric` | src/hq2x.hpp:41-47 | no colour differs from itself and the difference test is symmetric |
| `Yuv.PixelsSimilarReflexiveSymmetric` | src/utils.py:25-40 | every colour is similar to itself and similarity is symmetric |
| `Yuv.Dist` | src/xbr.hpp:17-22 | the weighted YUV distance is zero exactly when the two colours have the same YUV |
| `Yuv.DistSymmetric` | src/xbr.hpp:17-22 | the distance from a colour to itself is zero and the distance is symmetric |
| `Yuv.ZeroDistNoDifference` | src/xbr.hpp:17-22 | colours at distance zero never count as different for HQ2x |
| `Yuv.GreyYuv` | src/utils.py:9-22 | a grey colour has luma equal to its level and neutral chroma 128 |
| `PyList.Position` | src/geometry.py:208-217 | a valid Python index names position `i` when non-negative and `len + i` when negative |
| `PyList.Index` | src/geometry.py:225-228 | list indexing succeeds exactly for indices in `[-len, len)`, reading from the front or the back, and raises IndexError otherwise |
| `PyList.Update` | src/geometry.py:208-217 | item assignment succeeds exactly for valid indices, keeps the length, and changes only the named position |
| `PyList.SliceBound` | src/geometry.py:410-412 | a slice bound is clipped into `[0, len]`, with negative bounds counted from the end |
| `PyList.Take` | src/geometry.py:410-412 | `s[:k]` is a prefix of `s` of the normalised length |
| `PyList.Drop` | src/geometry.py:410-412 | `s[k:]` is the rest of `s` from the normalised bound on |
| `PyList.TakeDrop` | src/geometry.py:410-412 | `s[:k] + s[k:]` is `s` |
| `PyList.ZeroFromEnd` | src/geometry.py:410-412 | with a zero degree `s[:-0]` is empty and `s[-0:]` is the whole list, since `-0` is `0` |
| `PyList.FromEnd` | src/geometry.py:410-412 | for `0 < k <= len` the negative slices drop or keep the last `k` elements |
| `PyList.Mod` | src/geometry.py:424 | Python's `%` raises ZeroDivisionError on a zero divisor and otherwise takes the sign of the divisor |
| `PyList.ModSmall` | src/geometry.py:424 | `%` leaves a non-negative value below the divisor unchanged |
| `Scale.Scale2x` | src/epx.hpp:11-41 | every kernel's output is twice the size of the input, with each source pixel's block at its four cells |
| `Scale.Placement` | src/epx.hpp:33-38 | a buffer whose every cell holds the quadrant of the pixel at half its coordinates has each pixel's block at `(2x, 2y)`, `(2x+1, 2y)`, `(2x, 2y+1)` and `(2x+1, 2y+1)` |
| `Scale.PlacementCell` | src/epx.hpp:33-38 | cell `(2x + qx, 2y + qy)` holds quadrant `(qx, qy)` of pixel `(x, y)`'s block |
| `Scale.Ownership` | src/epx.hpp:33-38 | every output cell is written by exactly one source pixel, the one at half its coordinates, so no cell is left at its default |
| `Scale.Scale2xUniform` | src/epx.hpp:11-41 | a rule that yields one colour everywhere gives a single-coloured output |
| `Scale.Scale2xAt` | src/epx.hpp:33-38 | the four cells pixel `(x, y)` owns hold its block's four values |
| `Scale.Scale2xExt` | src/epx.hpp:11-41 | the output depends only on the blocks the rule yields inside the source |
| `Scale.Scale2xPalette` | src/epx.hpp:11-41 | a rule that only yields source pixels introduces no new colour |
| `Scale.Scale2xPreserves` | src/epx.hpp:11-41 | a property of every block value is a property of every output cell |
| `Scale.Scale2xLoop` | src/epx.hpp:10-42 | the nested row-major loops over the source, writing four cells per pixel into a freshly sized buffer, compute exactly `Scale2x` |
| `Scale.NoneDone` | src/epx.hpp:11 | before the first pixel no cell has been written, so every cell holds the default |
| `Scale.RowDone` | src/epx.hpp:13-14 | finishing row `y` is the same as having written every row before `y + 1` |
| `Scale.AllDone` | src/epx.hpp:40-41 | after the last row the buffer is the kernel's output |
| `Scale.WritesBlock` | src/epx.hpp:35-38 | writing pixel `(x, y)`'s four cells extends the written prefix by exactly that pixel and leaves the unwritten cells at their default |
| `Scale.NewlyDone` | src/epx.hpp:33-38 | the cells that become written when moving past `(x, y)` are exactly its four destination offsets |
| `Scale.Window3` | src/eagle.hpp:16-25 | the nine NEAREST reads around a pixel form a window of nine entries |
| `Scale.Window3Layout` | src/eagle.hpp:16-25 | entry `k` of the window is the neighbour at column offset `k % 3 - 1` and row offset `k / 3 - 1`, row by row |
| `Scale.Window3Palette` | src/eagle.hpp:16-25 | every window entry is a pixel of the source, even at the border |
| `Scale.Window3Uniform` | src/eagle.hpp:16-25 | every window entry of a single-coloured image is that colour |
| `Epx.CrossInWindow` | src/epx.hpp:16-22 | the EPX neighbours A, B, C, D and P are the up, right, left, down and centre entries of the 3x3 window |
| `Epx.EpxRule` | src/epx.hpp:22-31 | each EPX corner is either P or the neighbour its rule names, and when three or more of A, B, C, D coincide all four corners are P |
| `Epx.EpxCorners` | src/epx.hpp:27-30 | away from the three-equal override each corner takes its neighbour exactly when its two adjacent neighbours agree |
| `Epx.AdvMameRule` | src/epx.hpp:57-65 | each AdvMAME2x corner is either P or the neighbour its rule names |
| `Epx.AdvMameAllEqual` | src/epx.hpp:62-65 | with A, B, C and D all equal no AdvMAME2x rule fires |
| `Epx.EpxIsAdvMame` | src/epx.hpp:10-76 | the EPX and AdvMAME2x rules compute the same block on every neighbourhood |
| `Epx.EpxAtIsAdvMameAt` | src/epx.hpp:10-76 | `scaleEpx` and `scaleAdvMame` agree at every pixel |
| `Epx.EpxAtIsAdvMameAtAll` | src/epx.hpp:10-76 | the two kernels' per-pixel rules agree on the whole image |
| `Epx.RulesUniform` | src/epx.hpp:22-31 | a single-coloured neighbourhood yields a single-coloured block under both rules |
| `Epx.CrossUniform` | src/epx.hpp:16-22 | in a single-coloured image every neighbour read yields that colour |
| `Epx.EpxAtUniform` | src/epx.hpp:10-42 | EPX leaves a single-coloured image single-coloured at every pixel |
| `Epx.EpxAtUniformAll` | src/epx.hpp:10-42 | EPX's rule is the constant block on a single-coloured image |
| `Eagle.EagleRule` | src/eagle.hpp:28-36 | each Eagle corner is either P or its diagonal neighbour |
| `Eagle.EagleCornerConditions` | src/eagle.hpp:33-36 | a corner becomes its diagonal neighbour exactly when the three neighbours its rule tests agree, or the diagonal already equals P |
| `Eagle.EagleCornersIndependent` | src/eagle.hpp:33-36 | each corner depends only on P and the three neighbours its own rule reads |
| `Eagle.EagleRulePalette` | src/eagle.hpp:28-36 | every corner of the block is an entry of the window |
| `Eagle.EagleRuleUniform` | src/eagle.hpp:28-36 | a single-coloured window yields a single-coloured block |
| `Eagle.EagleAtPalette` | src/eagle.hpp:10-47 | Eagle introduces no colour the source does not have |
| `Eagle.EagleAtUniform` | src/eagle.hpp:10-47 | Eagle leaves a single-coloured image single-coloured at every pixel |
| `Eagle.EagleAtPaletteAll` | src/eagle.hpp:10-47 | Eagle's rule yields only source pixels across the whole image |
| `Eagle.EagleAtUniformAll` | src/eagle.hpp:10-47 | Eagle's rule is the constant block on a single-coloured image |
| `Sai.MajorityMatch` | src/2xsai.hpp:19-28 | the vote is +1 exactly when C and D both equal A, -1 exactly when both equal B and not A, and 0 otherwise |
| `Sai.Accumulator` | src/2xsai.hpp:73-77 | the sum of the four votes lies in `[-4, 4]` |
| `Sai.Classify` | src/2xsai.hpp:50-82 | the first filter layer picks exactly one of the four cases according to whether A-D and B-C are edges |
| `Sai.SaiRule` | src/2xsai.hpp:46-99 | the top-left output is always A and the three interpolated outputs are byte colours |
| `Sai.OnlyADRule` | src/2xsai.hpp:50-57 | with only A-D an edge, the bottom and bottom-right outputs are A and the right output is A or the A-B midpoint |
| `Sai.OnlyBCRule` | src/2xsai.hpp:58-65 | with only B-C an edge, the bottom-right output is B, the right output is B or the A-B midpoint, and the bottom output is C or the A-C midpoint |
| `Sai.BothRule` | src/2xsai.hpp:66-81 | with both diagonals edges the outputs are byte colours and the top-left output is A |
| `Sai.NeitherRule` | src/2xsai.hpp:82-92 | with neither diagonal an edge the bottom-right output is the bilinear midpoint and the other two are a neighbour or a midpoint |
| `Sai.SaiCases` | src/2xsai.hpp:50-67 | the outputs each case fixes whatever the outer pixels are, including the single-colour block when A, B, C and D agree |
| `Sai.SaiVote` | src/2xsai.hpp:68-80 | in the both-diagonals case with A != B, a positive vote gives A, a negative one B, and a tie the bilinear midpoint |
| `Sai.BlendsInHull` | src/2xsai.hpp:52-91 | the neighbours and both midpoints lie in the colour range of A, B, C and D |
| `Sai.OnlyADInHull` | src/2xsai.hpp:50-57 | the only-A-D case never leaves the colour range of A, B, C and D |
| `Sai.OnlyBCInHull` | src/2xsai.hpp:58-65 | the only-B-C case never leaves the colour range |
| `Sai.BothInHull` | src/2xsai.hpp:66-81 | the both-diagonals case never leaves the colour range |
| `Sai.NeitherInHull` | src/2xsai.hpp:82-92 | the neither case never leaves the colour range |
| `Sai.SaiRuleInHull` | src/2xsai.hpp:46-99 | every output lies in the colour range of A, B, C and D, so the kernel never overshoots |
| `Sai.SaiRuleUniform` | src/2xsai.hpp:46-99 | a single-coloured neighbourhood yields four copies of its colour |
| `Sai.SaiBlockTopLeft` | src/2xsai.hpp:96 | the top-left output cell of each pixel is that pixel |
| `Sai.SaiBlockValid` | src/2xsai.hpp:31-103 | on a byte image every output cell is a byte colour |
| `Sai.SaiBlockUniform` | src/2xsai.hpp:31-103 | 2xSaI leaves a single-coloured image single-coloured at every pixel |
| `Sai.ContextUniform` | src/2xsai.hpp:37-44 | in a single-coloured image all sixteen reads yield that colour |
| `Sai.SaiAtAll` | src/2xsai.hpp:31-103 | the per-pixel rule is defined across the image and is the 2xSaI block |
| `Sai.SaiAtValidAll` | src/2xsai.hpp:31-103 | across the whole image every block value is a byte colour |
| `Sai.SaiAtUniformAll` | src/2xsai.hpp:31-103 | 2xSaI's rule is the constant block on a single-coloured image |
| `Hq2x.Neighbour` | src/hq2x.hpp:77-81 | mask bit `k` describes window entry `k` below the centre and `k + 1` above it, never the centre itself |
| `Hq2x.BitsDetermine` | src/hq2x.hpp:71-72 | a mask is determined by its eight bits |
| `Hq2x.Flag` | src/hq2x.hpp:81 | `pixel_diff << k` sets bit `k` exactly when the test differs and no other bit |
| `Hq2x.ComputeDifferences` | src/hq2x.hpp:74-84 | the loop sets bit `k` exactly when the neighbour that bit describes differs from the centre in YUV |
| `Hq2x.OrBit` | src/hq2x.hpp:81 | or-ing a flag into the mask sets a bit exactly when either side has it |
| `Hq2x.MaskBits` | src/hq2x.hpp:71-72 | the mask assembled from eight tests carries each test in its own bit |
| `Hq2x.DifferencesBits` | src/hq2x.hpp:74-84 | bit `k` of the mask is set exactly when neighbour `k` differs from the centre |
| `Hq2x.DifferencesUniform` | src/hq2x.hpp:74-84 | a window of one colour gives the empty mask |
| `Hq2x.Interpolate2Valid` | src/hq2x.hpp:49-56 | two byte colours whose weights sum to `2^s` blend to a byte colour |
| `Hq2x.Interpolate3Valid` | src/hq2x.hpp:58-64 | three byte colours whose weights sum to `2^s` blend to a byte colour |
| `Hq2x.WeightedBounds` | src/hq2x.hpp:52-63 | a weighted sum of bytes whose weights add up to the divisor is a byte |
| `Hq2x.WeightedSame` | src/hq2x.hpp:58-64 | blending one colour with itself at weights summing to the divisor gives it back |
| `Hq2x.EvalValid` | src/hq2x.hpp:136-235 | every blend the rule tables use maps byte colours to a byte colour |
| `Hq2x.EvalUniform` | src/hq2x.hpp:136-235 | every blend the rule tables use maps a one-colour window to that colour |
| `Hq2x.FirstMatch` | src/hq2x.hpp:136-158 | an if/else-if chain yields the blend of one of its clauses or its final `else` |
| `Hq2x.FirstMatchIsFirst` | src/hq2x.hpp:136-158 | the chain yields clause `i`'s blend exactly when clause `i` holds and none before it does, and the final `else` when none holds |
| `Hq2x.FirstMatchValid` | src/hq2x.hpp:136-235 | whatever clause fires, a normalised chain yields a byte colour from byte colours |
| `Hq2x.FirstMatchUniform` | src/hq2x.hpp:136-235 | whatever clause fires, a normalised chain maps a one-colour window to that colour |
| `Hq2x.ChainsNormalised` | src/hq2x.hpp:136-235 | every weight and shift of the four output chains sums to its power of two |
| `Hq2x.Hq2xRuleUniform` | src/hq2x.hpp:102-235 | a one-colour window gives the empty mask and four copies of its colour |
| `Hq2x.Hq2xRuleValid` | src/hq2x.hpp:102-235 | every output cell of a window of byte colours is a byte colour |
| `Hq2x.EmptyMaskNoneHold` | src/hq2x.hpp:15 | under an empty mask no clause that asks for a difference holds |
| `Hq2x.MatchesEmpty` | src/hq2x.hpp:15 | `P(mask, des)` holds of the empty mask exactly when `des` is zero |
| `Hq2x.EmptyMaskClauses00` | src/hq2x.hpp:136-158 | every clause of the top-left chain asks for some difference |
| `Hq2x.EmptyMaskClauses01` | src/hq2x.hpp:160-168 | the first four clauses of the top-right chain ask for a difference and the fifth, `cond10`, asks for none |
| `Hq2x.EmptyMaskClauses10` | src/hq2x.hpp:190-198 | the same holds of the bottom-left chain |
| `Hq2x.EmptyMaskClauses11` | src/hq2x.hpp:220-231 | the first four clauses of the bottom-right chain ask for a difference and the fifth asks for none |
| `Hq2x.EmptyMask00` | src/hq2x.hpp:157-158 | under an empty mask the top-left chain reaches its `else` |
| `Hq2x.EmptyMaskFifth` | src/hq2x.hpp:168-169 | a chain whose first four clauses need a difference and whose fifth needs none yields the fifth under an empty mask |
| `Hq2x.EmptyMask01` | src/hq2x.hpp:168-169 | under an empty mask the top-right output is the 5:2:1 blend of centre, top and left |
| `Hq2x.EmptyMask10` | src/hq2x.hpp:198-199 | under an empty mask the bottom-left output is the 5:2:1 blend of centre, left and top |
| `Hq2x.EmptyMask11` | src/hq2x.hpp:229-231 | under an empty mask the bottom-right output is the 6:1:1 blend of centre, left and top |
| `Hq2x.Hq2xSmooth` | src/hq2x.hpp:136-235 | where all eight neighbours are similar to the centre the four outputs are the smoothing blends 2:1:1, 5:2:1, 5:2:1 and 6:1:1 |
| `Hq2x.Hq2xBlockUniform` | src/hq2x.hpp:86-248 | HQ2x leaves a single-coloured image single-coloured at every pixel |
| `Hq2x.Hq2xBlockValid` | src/hq2x.hpp:86-248 | on a byte image every output cell is a byte colour |
| `Hq2x.Hq2xAtUniformAll` | src/hq2x.hpp:86-248 | HQ2x's rule is the constant block on a single-coloured image |
| `Hq2x.Hq2xAtValidAll` | src/hq2x.hpp:86-248 | across the whole image every block value is a byte colour |
| `Xbr.NewColor` | src/xbr.hpp:65 | the new colour is one of the two candidate neighbours of its direction |
| `Xbr.NewColorNearest` | src/xbr.hpp:65 | the new colour is a candidate nearest to E, and the second candidate is chosen only when strictly nearer |
| `Xbr.Set` | src/xbr.hpp:68-77 | assigning one output cell changes that cell and no other |
| `Xbr.Blend` | src/xbr.hpp:66-77 | the mixes of a firing rule keep every cell a non-negative colour |
| `Xbr.CornersDistinct` | src/xbr.hpp:64-120 | the main, two side and opposite cells of a direction are four different cells |
| `Xbr.BlendFrame` | src/xbr.hpp:66-77 | a firing rule mixes the main cell 3/4 towards the new colour when a continuation holds and 1/2 otherwise, each continuing side 1/4, and never touches the opposite cell |
| `Xbr.Decide` | src/xbr.hpp:64-120 | each direction's decision carries that direction and one of its two candidates |
| `Xbr.Decisions` | src/xbr.hpp:64-120 | the kernel takes exactly four decisions, one per direction |
| `Xbr.Step` | src/xbr.hpp:64-78 | applying one decision keeps every cell a non-negative colour |
| `Xbr.Steps` | src/xbr.hpp:64-120 | applying the decisions one after another keeps every cell a non-negative colour |
| `Xbr.DecisionsNonNegative` | src/xbr.hpp:65-108 | every new colour is a non-negative colour when the neighbours are |
| `Xbr.StepFrame` | src/xbr.hpp:64-120 | when a direction's edge is detected its main cell always changes, each side only when its equality test holds, and the opposite cell never |
| `Xbr.StepsNoFire` | src/xbr.hpp:59-61 | decisions that do not fire leave the block as initialised |
| `Xbr.XbrNoEdge` | src/xbr.hpp:59-128 | when no edge is detected in any direction all four cells are the source pixel |
| `Xbr.EdgeStrict` | src/xbr.hpp:48 | an edge is detected only when the perpendicular distance is strictly below the parallel one |
| `Xbr.DistZeroOnEqual` | src/xbr.hpp:17-22 | the YUV distance of a colour to itself is zero |
| `Xbr.UniformNoEdge` | src/xbr.hpp:46-57 | in a one-colour neighbourhood both weighted distances are zero, so no edge is detected |
| `Xbr.XbrRuleUniform` | src/xbr.hpp:28-128 | a one-colour neighbourhood yields four copies of its colour |
| `Xbr.CornerCases` | src/xbr.hpp:64-120 | every output cell is the main, a side or the opposite cell of any direction |
| `Xbr.BlendValid` | src/xbr.hpp:66-77 | mixing byte colours keeps every cell a byte colour |
| `Xbr.StepsValid` | src/xbr.hpp:64-120 | the four rules applied in turn keep every cell a byte colour |
| `Xbr.XbrRuleValid` | src/xbr.hpp:28-128 | every output cell of byte neighbours is a byte colour |
| `Xbr.StepsUntouched` | src/xbr.hpp:64-120 | a cell no firing decision touches keeps its value through all of them |
| `Xbr.XbrUntouched` | src/xbr.hpp:59-128 | a cell that no firing rule writes stays the source pixel E |
| `Xbr.ContextUniform` | src/xbr.hpp:31-43 | in a single-coloured image all twenty-one reads yield that colour |
| `Xbr.XbrBlockValid` | src/xbr.hpp:24-133 | on a byte image every output cell is a byte colour |
| `Xbr.XbrBlockUniform` | src/xbr.hpp:24-133 | xBR leaves a single-coloured image single-coloured at every pixel |
| `Xbr.XbrAtValidAll` | src/xbr.hpp:24-133 | across the whole image every block value is a byte colour |
| `Xbr.XbrAtUniformAll` | src/xbr.hpp:24-133 | xBR's rule is the constant block on a single-coloured image |
| `Kernels.ScaleEpx` | src/epx.hpp:9-42 | `scaleEpx` returns an image of twice the width and twice the height |
| `Kernels.ScaleAdvMame` | src/epx.hpp:44-76 | `scaleAdvMame` returns an image of twice the width and twice the height |
| `Kernels.ScaleEpxIsAdvMame` | src/epx.hpp:9-76 | the two kernels produce the same image from every input |
| `Kernels.ScaleEpxPalette` | src/epx.hpp:9-42 | EPX only copies pixels of the source and never blends |
| `Kernels.ScaleEpxUniform` | src/epx.hpp:9-42 | a single-coloured image scales to a single-coloured image of the same colour |
| `Kernels.ScaleAdvMameUniform` | src/epx.hpp:44-76 | a single-coloured image scales to a single-coloured image of the same colour |
| `Kernels.ScaleEagle` | src/eagle.hpp:9-47 | `scaleEagle` returns an image of twice the width and twice the height |
| `Kernels.ScaleEaglePalette` | src/eagle.hpp:9-47 | Eagle only copies pixels of the source |
| `Kernels.ScaleEagleUniform` | src/eagle.hpp:9-47 | a single-coloured image scales to a single-coloured image of the same colour |
| `Kernels.ScaleEagleSingle` | src/eagle.hpp:9-47 | a 1x1 image yields four copies of its pixel, since NEAREST clamps every neighbour onto it |
| `Kernels.Scale2xSaI` | src/2xsai.hpp:30-103 | `scale2xSaI` returns an image of twice the width and twice the height |
| `Kernels.Scale2xSaITopLeft` | src/2xsai.hpp:96 | every source pixel survives unchanged at the top-left of its block |
| `Kernels.Scale2xSaIValid` | src/2xsai.hpp:30-103 | the blends never leave the byte range |
| `Kernels.Scale2xSaIUniform` | src/2xsai.hpp:30-103 | a single-coloured image scales to a single-coloured image of the same colour |
| `Kernels.ScaleHq2x` | src/hq2x.hpp:86-248 | `scaleHq2x` returns an image of twice the width and twice the height |
| `Kernels.ScaleHq2xUniform` | src/hq2x.hpp:86-248 | a single-coloured image scales to a single-coloured image of the same colour |
| `Kernels.ScaleHq2xValid` | src/hq2x.hpp:86-248 | the integer blends never leave the byte range |
| `Kernels.ScaleXbr` | src/xbr.hpp:24-133 | `scaleXbr` returns an image of twice the width and twice the height |
| `Kernels.ScaleXbrNoEdge` | src/xbr.hpp:59-128 | where no edge is detected in any direction the pixel is simply duplicated into its four cells |
| `Kernels.ScaleXbrValid` | src/xbr.hpp:24-133 | the mixes never leave the byte range |
| `Kernels.ScaleXbrUniform` | src/xbr.hpp:24-133 | a single-coloured image scales to a single-coloured image of the same colour |
| `Utils.Clamp` | src/utils.py:56-57 | `max(min(num, hi), lo)` lies in `[lo, hi]` for ordered bounds, is the value when it is in range, and is `lo` when the bounds cross |
| `Utils.ClampIdempotent` | src/utils.py:56-57 | clamping a clamped value changes nothing |
| `Utils.Row` | src/utils.py:52-53 | the inner loop yields `(0, y)` to `(w - 1, y)` in order |
| `Utils.PixelCoordsMembers` | src/utils.py:43-53 | `pixel_coords` yields exactly the coordinates `within_bounds` accepts |
| `Utils.PixelCoordsOrder` | src/utils.py:51-53 | the generator yields `w * h` coordinates in row-major order, position `k` holding `(k % w, k / w)` |
| `Utils.PixelCoordsEmpty` | src/utils.py:51-53 | an empty or negative dimension yields nothing |
| `Utils.PixelCoordsDistinct` | src/utils.py:51-53 | no coordinate is yielded twice |
| `Utils.SortedVertices` | src/utils.py:66-76 | the result holds the edge's two endpoints, the smaller first in tuple order |
| `Utils.SortedVerticesSymmetric` | src/utils.py:66-76 | the result does not depend on the edge's direction |
| `Utils.SafeRemove` | src/utils.py:79-88 | afterwards the element is absent and every other element is still there |
| `Utils.SafeRemoveAbsent` | src/utils.py:79-88 | removing an absent element changes nothing, and removing twice is removing once |
| `Utils.GreysSimilar` | src/utils.py:25-40 | two grey pixels are similar exactly when their levels differ by at most 48 |
| `Graphs.AddNode` | src/kopf_lichinski.py:55 | `add_node` adds the node with no neighbours when it is new and keeps an existing node's neighbours |
| `Graphs.AddEdge` | src/kopf_lichinski.py:235 | `add_edge` adds missing endpoints as nodes and the edge both ways round, and no other edge |
| `Graphs.RemoveEdge` | src/kopf_lichinski.py:83 | `remove_edge` succeeds exactly when the edge exists, and then removes it both ways round and nothing else |
| `Graphs.RemoveNode` | src/kopf_lichinski.py:121-122 | `remove_node` succeeds exactly when the node exists, and then removes it with every edge at it |
| `Graphs.AddEdgeSimple` | src/kopf_lichinski.py:116 | adding an edge between two different nodes keeps the graph free of self-loops and symmetric |
| `Graphs.RemoveEdgeSimple` | src/kopf_lichinski.py:83 | removing an edge keeps the graph simple |
| `Graphs.RemoveNodeSimple` | src/kopf_lichinski.py:121-122 | removing a node keeps the graph simple |
| `Graphs.GraphExt` | src/kopf_lichinski.py:51 | two graphs with the same nodes and edges are the same graph |
| `Graphs.RemoveAddEdge` | src/heuristics.py:31 | `remove_edge` undoes `add_edge`: removing an edge just added between two unjoined nodes gives back the graph |
| `Graphs.AddEdgePresent` | src/kopf_lichinski.py:116 | adding an edge that is already there changes nothing |
| `Kopf.Subscript` | src/kopf_lichinski.py:217 | `pixel_data[y][x]` reads the pixel at an in-range coordinate |
| `Kopf.PixelDataSafeAccess` | src/kopf_lichinski.py:189-217 | in range it reads the pixel; out of range ZERO yields black, PANIC raises RuntimeError, and NEAREST reads the pixel at the clamped coordinates |
| `Kopf.AsWrittenAgreesOffNearest` | src/kopf_lichinski.py:202-215 | the code as written and the corrected access agree under the ZERO and PANIC policies |
| `Kopf.Strip` | src/kopf_lichinski.py:17-21 | the 3x1 example picture is well-formed |
| `Kopf.NearestAsWrittenMisreads` | src/kopf_lichinski.py:209-211 | as written, NEAREST at `(2, -1)` reads pixel `(0, 0)` instead of `(2, 0)`, and at `(0, 1)` raises IndexError instead of reading `(0, 0)` |
| `Kopf.AddEdgeIfValidNodes` | src/kopf_lichinski.py:220-235 | a try adds both endpoints as nodes exactly when the target is in bounds and similar, and otherwise adds nothing |
| `Kopf.AddEdgeIfValidEdge` | src/kopf_lichinski.py:220-235 | a try adds exactly the one edge, both ways round, when the target is in bounds and similar |
| `Kopf.TargetsAhead` | src/kopf_lichinski.py:58-61 | the four tried targets are exactly the right, upper-right, lower-right and lower neighbours |
| `Kopf.AddEdgesIfValidSpec` | src/kopf_lichinski.py:58-61 | the four tries add exactly the edges from the pixel to the similar in-bounds targets, and their endpoints |
| `Kopf.VisitPixelSpec` | src/kopf_lichinski.py:53-61 | visiting a pixel adds it and its edges to the similar pixels ahead of it, and nothing else |
| `Kopf.VisitSpec` | src/kopf_lichinski.py:53-61 | after the loop the edges are exactly those from each visited pixel to the similar pixels ahead of it |
| `Kopf.PixelsSimilarSymmetric` | src/utils.py:25-40 | the similarity test is symmetric |
| `Kopf.SimilarityGraphSpec` | src/kopf_lichinski.py:46-61 | the similarity graph has a node per pixel and nothing else, and an edge exactly between similar 8-neighbours |
| `Kopf.SimilarityGraphSimple` | src/kopf_lichinski.py:46-61 | the similarity graph has no self-loops and every edge goes both ways |
| `Kopf.Corners` | src/kopf_lichinski.py:54 | a pixel has four distinct corner vertices |
| `Kopf.InitialCorners` | src/kopf_lichinski.py:54-55 | every pixel, and nothing else, starts with a `corners` attribute |
| `Kopf.BlockAt` | src/kopf_lichinski.py:247 | a block of size `s` lists `s * s` pixels |
| `Kopf.SplitBelowSquare` | src/kopf_lichinski.py:247 | a position below `s * s` splits into two offsets below `s` |
| `Kopf.JoinBelowSquare` | src/kopf_lichinski.py:247 | two offsets below `s` make a position below `s * s` that splits back into them |
| `Kopf.BlockAtMembers` | src/kopf_lichinski.py:247 | a block holds exactly the pixels of the `s` x `s` square whose top-left pixel is `c` |
| `Kopf.BlockAtTwo` | src/kopf_lichinski.py:247 | the 2x2 block lists its pixels top-left, bottom-left, top-right, bottom-right |
| `Kopf.EnumerateBlocks` | src/kopf_lichinski.py:238-247 | block `k` is the square at the `k`-th top-left pixel |
| `Kopf.EnumerateBlocksSpec` | src/kopf_lichinski.py:238-247 | there are `(w - s + 1) * (h - s + 1)` blocks when both factors are positive and none otherwise, each of `s * s` pixels of the picture |
| `Kopf.DiagonalsOfBlock` | src/kopf_lichinski.py:78 | of a block's six pixel pairs, the ones flagged diagonal are exactly its two diagonals |
| `Kopf.DiagonalOwner` | src/kopf_lichinski.py:71-88 | a diagonal belongs to one block only |
| `Kopf.ResolveBlock` | src/kopf_lichinski.py:72-88 | one block raises RuntimeError exactly when it is malformed; otherwise it removes both diagonals of a fully connected block and lists the pair of an ambiguous one, and changes nothing else |
| `Kopf.OtherBlockUnaffected` | src/kopf_lichinski.py:71-88 | changing the diagonals of one block leaves every other block's edge and diagonal counts as they were |
| `Kopf.ClassificationKept` | src/kopf_lichinski.py:71-88 | resolving the first block does not change how any later block is classified |
| `Kopf.PairsOfOtherBlocks` | src/kopf_lichinski.py:86 | two different blocks share no diagonal |
| `Kopf.PairsDistinctAppend` | src/kopf_lichinski.py:86 | the pairs listed for one block and for the later blocks share no diagonal |
| `Kopf.ResolveConsMalformed` | src/kopf_lichinski.py:71-88 | the loop meets a malformed block exactly when the first block is malformed or a later one is in the graph the first left |
| `Kopf.ResolveConsCleared` | src/kopf_lichinski.py:81-83 | the removed diagonals are the first block's, if it is fully connected, and those the later blocks remove |
| `Kopf.ResolveConsListed` | src/kopf_lichinski.py:85-86 | the listed pairs are the first block's, if it is ambiguous, and those the later blocks list |
| `Kopf.ResolveCons` | src/kopf_lichinski.py:71-88 | the loop splits into the first block and the rest, on all three counts |
| `Kopf.ResolveBlocksSpec` | src/kopf_lichinski.py:69-88 | the block loop raises exactly when some block is malformed; otherwise it keeps every pixel, removes exactly the diagonals of the fully connected blocks, and lists one pair per ambiguous block, no diagonal shared |
| `Kopf.DiagonalsResolved` | src/kopf_lichinski.py:79-91 | a fully connected block ends with neither diagonal and an ambiguous block with at most one |
| `Kopf.RemoveDiagonals` | src/kopf_lichinski.py:64-91 | the pass raises RuntimeError exactly when some block is malformed; otherwise every pixel stays, only diagonals go, a fully connected block loses both, the graph stays simple, and each diagonal of an ambiguous block survives exactly when its weight on the graph the block loop leaves is strictly above the other's |
| `Kopf.ResolvedIsWithoutCleared` | src/kopf_lichinski.py:69-83 | the graph the block loop hands to the heuristics is exactly the original without the cleared diagonals |
| `Kopf.AmbiguousByWeight` | src/kopf_lichinski.py:85-91 | every ambiguous block's pair is handed to the heuristics, and the heuristics' verdict on it is the block's: the strictly heavier diagonal survives, a tie removes both |
| `Kopf.ChosenIsDiagonal` | src/heuristics.py:26-31 | every edge the heuristics may remove is a diagonal of some listed pair |
| `Kopf.HeuristicsKeepSimple` | src/kopf_lichinski.py:90-91 | after both stages the graph is simple, on the same pixels, with only edges of the original |
| `Kopf.HeuristicsKeepSides` | src/kopf_lichinski.py:90-91 | neither stage removes an edge that is not a diagonal |
| `Kopf.BlockCornersDistinct` | src/kopf_lichinski.py:246 | every block is visited once |
| `Kopf.SymmetricSubgraphSimple` | src/kopf_lichinski.py:83 | removing edges both ways round from a simple graph leaves it simple |
| `Kopf.ResolvedSimple` | src/kopf_lichinski.py:81-83 | the graph the block loop leaves is simple |
| `Kopf.ResolvedPairsPresent` | src/kopf_lichinski.py:85-86 | both diagonals of every listed pair survive the block loop for the heuristics to weigh |
| `Kopf.GreyEdge` | src/kopf_lichinski.py:58-61 | two touching grey pixels are joined exactly when their levels differ by at most 48 |
| `Kopf.DiagonalsAndOneSide` | src/kopf_lichinski.py:79-88 | a block with both diagonals and exactly one side is malformed, and the loop raises at it |
| `Kopf.OneBlock` | src/kopf_lichinski.py:246 | a 2x2 picture has exactly one block |
| `Kopf.MalformedBlockRaises` | src/kopf_lichinski.py:87-88 | the RuntimeError the message calls unexpected is reachable: a 2x2 grey picture with levels 0 and 60 above and 100 and 40 below raises it |
| `Heuristics.WeightIsland` | src/heuristics.py:127-141 | the island weight is 5 exactly when either endpoint has a single neighbour, and 0 otherwise |
| `Heuristics.SparseOffsetCentres` | src/heuristics.py:144-156 | the offset places both endpoints of a diagonal in the middle 2x2 of the 8x8 window |
| `Heuristics.VisitSparseNeighbours` | src/heuristics.py:116-121 | one pass over a pixel's neighbours adds exactly its in-window neighbours to the found set, pushing each new one and nothing else |
| `Heuristics.LeastSparseClosed` | src/heuristics.py:109-124 | a closed pixel set inside every closed set is the reachable set |
| `Heuristics.WeightSparse` | src/heuristics.py:97-124 | the pixels found are exactly those reachable from the endpoints through in-window neighbours, the least closed set, and the weight is minus their number, at most -2 |
| `Heuristics.ClosedAtEnds` | src/heuristics.py:82-91 | a closed edge set continues at both ends of every edge it holds |
| `Heuristics.ContinueCurve` | src/heuristics.py:86-91 | at a valence-2 pixel the curve becomes the old one plus exactly that pixel's two edges, each new edge pushing its far end and nothing else being pushed |
| `Heuristics.CurveLoopSkip` | src/heuristics.py:82-84 | popping a pixel whose valence is not 2 keeps the search invariant |
| `Heuristics.CurveLoopContinue` | src/heuristics.py:78-91 | popping a valence-2 pixel and following its edges keeps the search invariant |
| `Heuristics.CurveLeastContinue` | src/heuristics.py:86-91 | continuing at a popped valence-2 pixel keeps the curve inside every closed edge set, and every pixel still to pop an end of it |
| `Heuristics.LeastCurveClosed` | src/heuristics.py:78-94 | a closed edge set inside every closed set is the curve through the edge |
| `Heuristics.FewerLeft` | src/heuristics.py:78-91 | adding edges of the graph to the curve leaves fewer outside it, so the search ends |
| `Heuristics.WeightCurve` | src/heuristics.py:63-94 | with the set seeded with the edge, the edges found are exactly the curve through it, the least closed set holding the edge, and the weight is their number, at least 1, and 1 when neither endpoint has valence 2 |
| `Heuristics.EdgeItemsCard` | src/heuristics.py:94 | each edge of the curve is one item of the counted set |
| `Heuristics.ItemsCard` | src/heuristics.py:74-94 | two distinct pixels and a set of edges make that many items plus two |
| `Heuristics.SeedAtEndpoint` | src/heuristics.py:86-90 | the edge itself is added only while continuing at one of its endpoints |
| `Heuristics.ContinuesKept` | src/heuristics.py:86-91 | continuing at a pixel keeps the search continued at every pixel already popped |
| `Heuristics.AsWrittenContinue` | src/heuristics.py:78-91 | continuing at a popped valence-2 pixel keeps the invariant of the search as written |
| `Heuristics.AsWrittenSkip` | src/heuristics.py:82-84 | popping a pixel of another valence keeps the invariant of the search as written |
| `Heuristics.AsWrittenEnd` | src/heuristics.py:78-94 | when the search as written ends, its edges are the curve through the edge if an endpoint has valence 2, and none otherwise |
| `Heuristics.WeightCurveAsWritten` | src/heuristics.py:63-94 | as written, the set counted is the edge's two pixels plus the curve's edges, or plus none when neither endpoint has valence 2, so the weight is the curve weight plus 2, or exactly 2 |
| `Heuristics.LoneDiagonalCurveWeights` | src/heuristics.py:74 | a lone diagonal weighs 2 as written and 1 corrected |
| `Heuristics.ComputeSingleWeight` | src/heuristics.py:48-60 | an edge's weight is the size of the curve through it, minus the pixels reachable in its window, plus 5 when an endpoint has one neighbour, with the corrected curve weight |
| `Heuristics.ComputeSingleWeightAsWritten` | src/heuristics.py:48-60 | with `_weight_curve` as written the weight is 2 more, or 1 more when neither endpoint has valence 2 |
| `Heuristics.ComputePairWeights` | src/heuristics.py:37-45 | both diagonals of a pair get their edge weights |
| `Heuristics.ComputeWeights` | src/heuristics.py:21-23 | every pair is weighed, on the graph before any removal |
| `Heuristics.ChosenInAnyCons` | src/heuristics.py:26-34 | an edge is removed for some pair exactly when it is removed for the first pair or for one of the rest |
| `Heuristics.PairsDistinctTail` | src/heuristics.py:26 | the later pairs share no diagonal among themselves |
| `Heuristics.PairsPresentTail` | src/heuristics.py:26-31 | removing diagonals of the first pair leaves every diagonal of the later pairs in place |
| `Heuristics.RemoveLightestSpec` | src/heuristics.py:26-34 | with every diagonal present and none shared the removal succeeds, keeps every node, and removes exactly the diagonals of minimum weight in their pair |
| `Heuristics.RemovedPerPair` | src/heuristics.py:27-31 | each pair loses at least one diagonal, and both when their weights tie |
| `Heuristics.ChosenOnlyFrom` | src/heuristics.py:26-31 | with no diagonal shared, a diagonal is picked for removal exactly when its own pair's weights make it the lighter or equal one |
| `Heuristics.LighterRemoved` | src/heuristics.py:26-31 | with every diagonal present and none shared, a diagonal survives exactly when it is strictly heavier than the other of its pair |
| `Heuristics.LighterRemovedAll` | src/heuristics.py:26-31 | the same for every pair at once |
| `Heuristics.ApplyHeuristics` | src/heuristics.py:13-34 | each pair's weights are the edge weights of its diagonals on the graph as it stands; exactly the minimum-weight diagonals of each pair are removed, keeping every node, so with none shared a diagonal survives exactly when strictly heavier |
| `PixelGrid.JoinNeighboursAddEdge` | src/kopf_lichinski.py:115-116 | joining a valence-2 vertex's neighbours is `add_edge` between them, whichever is listed first |
| `PixelGrid.JoinNeighboursSpec` | src/kopf_lichinski.py:115-116 | joining keeps the vertices and every edge, adds only the edge between the two neighbours, and keeps the graph simple |
| `PixelGrid.CollapseStep` | src/kopf_lichinski.py:109-118 | one iteration marks the vertex exactly when it is not an image corner and has at most two neighbours, keeps every vertex and edge, and leaves the vertex's own neighbours as they were |
| `PixelGrid.MarkRemovalsGrows` | src/kopf_lichinski.py:108-118 | valences never drop during the loop: every edge survives to its end |
| `PixelGrid.NeighboursKept` | src/kopf_lichinski.py:114-116 | a vertex's neighbours before the loop are among its neighbours after it |
| `PixelGrid.MarkedLowValence` | src/kopf_lichinski.py:108-118 | every marked vertex was visited, is not an image corner, and had at most two neighbours to begin with; none is marked twice |
| `PixelGrid.LowValenceMarked` | src/kopf_lichinski.py:108-118 | a visited non-corner vertex left with at most two neighbours is marked |
| `PixelGrid.RemoveNodesSpec` | src/kopf_lichinski.py:120-122 | removing the list succeeds exactly when each entry is a vertex and none is listed twice, raising NetworkXError otherwise; it keeps the other vertices and exactly the edges between them |
| `PixelGrid.UpdateCorners` | src/kopf_lichinski.py:124-129 | each pixel keeps only corners it had, and only corners that are still vertices |
| `PixelGrid.UpdateCornersSpec` | src/kopf_lichinski.py:124-129 | a corner is dropped exactly when its vertex is gone, and updating a second time changes nothing |
| `PixelGrid.Reached` | src/kopf_lichinski.py:108-118 | the graph as the valence loop finds it at a given vertex keeps the vertices and stays simple |
| `PixelGrid.ReachedShift` | src/kopf_lichinski.py:108-118 | reaching a later vertex is reaching it in the rest of the order after the first step |
| `PixelGrid.StepAdds` | src/kopf_lichinski.py:114-116 | an edge one step adds joins the two neighbours of the visited vertex, which is marked and not an image corner |
| `PixelGrid.MarkRemovalsAdds` | src/kopf_lichinski.py:108-118 | every edge the loop adds joins the two neighbours a marked non-corner vertex had when the loop reached it |
| `PixelGrid.DeformPixelGrid` | src/kopf_lichinski.py:99-129 | no `remove_node` raises; the image corners survive, a removed vertex had at most two neighbours, edges between survivors are kept, every new edge joins the two neighbours a removed vertex had when the loop reached it, the graph stays simple, and each pixel's corners are exactly its surviving vertices |
| `PixelGrid.CollapseLeavesNoLowValence` | src/kopf_lichinski.py:107-123 | every non-corner vertex left with at most two neighbours by the joins is removed |
| `Geometry.Make` | src/geometry.py:186-203 | construction keeps the knots and points it is given and yields a valid spline, raising ValueError on a degree other than `len(knots) - len(points) - 1` or, for a closed spline, on points not wrapped at the degree |
| `Geometry.MakeValid` | src/geometry.py:397-412 | construction succeeds exactly on valid splines, and an omitted degree is the expected one |
| `Geometry.WrappedAt` | src/geometry.py:410-412 | for `0 < d <= len(points)` the wrap check holds exactly when point `i` equals point `len(points) - d + i` for every `i < d` |
| `Geometry.CopySpec` | src/geometry.py:222-223 | a valid spline copies to itself |
| `Geometry.Domain` | src/geometry.py:225-228 | `domain` fails only with IndexError |
| `Geometry.DomainSpec` | src/geometry.py:225-228 | on a valid spline the domain runs from knot `degree` to knot `len(points)` |
| `Geometry.Reverse` | src/geometry.py:392 | `reversed` puts element `i` at position `len - 1 - i` |
| `Geometry.ReverseReverse` | src/geometry.py:390-393 | reversing twice gives back the sequence |
| `Geometry.MirrorKnots` | src/geometry.py:392 | mirroring keeps the number of knots |
| `Geometry.ReverseSlices` | src/geometry.py:411 | for a non-zero degree the head of the reversed points is the reversed tail, and the other way round |
| `Geometry.ReverseWrapped` | src/geometry.py:390-412 | reversal keeps the wrap, whatever the degree |
| `Geometry.MirrorMirror` | src/geometry.py:392 | mirroring the knots twice gives them back |
| `Geometry.ReversedValid` | src/geometry.py:390-393 | reversing a valid spline succeeds, with mirrored knots, reversed points, and the same class and degree |
| `Geometry.ReversedInvolution` | src/geometry.py:390-393 | reversing a valid spline gives a valid spline, and reversing twice gives back the original |
| `Geometry.MovePoint` | src/geometry.py:414-428 | a move keeps the class, the knots, the degree and the number of points; a closed spline raises IndexError for an index outside `[0, len(points))`; an open spline, through the base `move_point` at src/geometry.py:216, succeeds exactly on a Python index of the points and sets that one point, raising IndexError otherwise |
| `Geometry.Moved` | src/geometry.py:424-428 | setting a congruence class keeps the number of points |
| `Geometry.Congruent` | src/geometry.py:424-428 | below twice the unwrapped length the positions congruent to `i` are `i` and `i + u` |
| `Geometry.MovePointMoves` | src/geometry.py:414-428 | a closed move of an index in range assigns exactly the positions congruent to it modulo the unwrapped length |
| `Geometry.MovedWrapped` | src/geometry.py:424-428 | setting a whole congruence class keeps a wrap no longer than the unwrapped length |
| `Geometry.MovePointKeepsWrap` | src/geometry.py:414-428 | on a closed spline of degree at most half its points, moving any point in range succeeds, places the value at that index, and keeps the spline wrapped |
| `Geometry.MovedSpline` | src/geometry.py:424-428 | a spline with a whole congruence class moved is still valid |
| `Geometry.MovedAt` | src/geometry.py:424-428 | the moved index holds the value |
| `Geometry.MovePointBreaksLongWrap` | src/geometry.py:414-428 | with 3 points and degree 2, moving point 0 gives `[1, 1, 0]`, which is no longer wrapped |
| `Geometry.MovePointNothingUnwrapped` | src/geometry.py:424 | a closed spline whose degree equals its point count divides by zero on every move |
| `Geometry.UsefulPointsWrap` | src/geometry.py:430-432 | a closed spline's points are its useful points followed by the first `degree` of them again |
| `Geometry.UniformKnots` | src/geometry.py:570-571 | the knot list raises ZeroDivisionError exactly when `m` is 0, is empty for negative `m`, and otherwise has `m + 1` knots, knot `i` being `i / m` |
| `Geometry.UniformKnotsRise` | src/geometry.py:570-571 | the uniform knots rise strictly from 0 to 1 |
| `Geometry.ExtendedPathWrapped` | src/geometry.py:569 | the path followed by its first `d` points is wrapped at `d`, and dropping the last `d` points gives back the path |
| `Geometry.CurveToClosedBSplineSpec` | src/geometry.py:561-573 | for a degree from 1 to the path length the closed spline is built with `len(path) + degree` points whose useful points are the path, knots rising evenly from 0 to 1, and the domain from knot `degree` to knot `len(path) + degree` |
| `Geometry.DefaultDegreeAlwaysBuilds` | src/geometry.py:561-573 | with the default degree 2 the spline is built for every path, the empty and single-vertex ones included |
| `Geometry.LeastExists` | src/geometry.py:103 | every non-empty vertex set has a least vertex, so `min(nodes)` succeeds |
| `Geometry.LeastUnique` | src/geometry.py:103 | the least vertex is unique |
| `Geometry.MakePath` | src/geometry.py:94-126 | `min` of no vertices raises ValueError and a least vertex without neighbours raises IndexError; otherwise the path starts at the least vertex, has at least two vertices, never repeats one, follows edges, and ends when every vertex is visited or its last vertex has no unvisited neighbour |
| `Geometry.WalkOn` | src/geometry.py:111-116 | stepping to an unvisited neighbour of the last vertex keeps the loop invariant and shrinks the unvisited set |
| `Geometry.ExtendPath` | src/geometry.py:112-116 | stepping to an unvisited neighbour keeps the path without repeats and along edges |

## Left out

- src/nedi.hpp: its covariance solve is floating-point linear algebra in a foreign library.
- The constructor that reads an image file, `writeToFile`, framework/src/image.cpp and the `stbToType` conversions: file I/O and float/byte conversion.
- src/main.cpp, src/main.py and src/pixel_io.py: drivers, PNG reading and SVG rendering.
- `glm::mix` at weights other than quarters: no kernel uses one.
- Floating-point rounding of the YUV conversion: the model uses exact thousandths with truncation.
- Unsigned 8-bit wrap-around of channels: every value the model computes stays within 0..255, which the contracts state. The packed 32-bit `rgbToYuv` overload is modelled with explicit bit fields.
- `_create_pixel_graph`: it is networkx's `grid_2d_graph`, which the collapse takes as its input graph.
- `_deform_cell` and `_deform`: Voronoi-style cell deformation over half and quarter coordinates. `PixelGrid.DeformPixelGrid` takes the deformed graph as input and models the collapse that follows.
- `_create_shapes`, `_isolate_outlines`, `_add_shape_outlines` and `_smooth_splines`: these are driven by networkx's `connected_components` and `isolates`, and end in floating-point smoothing.
- `vectorize`: a driver that calls the passes in sequence.
- The caching of paths by `Path.key` in `_make_path`: it changes no result.
- B-spline evaluation: De Boor's algorithm, derivatives, curvature, trapezoid integration, `SplineSmoother` with its random guesses, `Point` complex arithmetic and `slope`. All are floating-point numerics.
- `Geometry.MovePoint`: for a closed spline and an index in range, its own contract states only the shape. What it assigns there is stated by `Geometry.MovePointMoves` and `Geometry.MovePointKeepsWrap` when `0 < degree` and `2 * degree <= len(points)`, and the division by zero by `Geometry.MovePointNothingUnwrapped` when the degree equals the point count. For degree 0, and for a degree above half the points but below their count, only the shape is stated; `Geometry.MovePointBreaksLongWrap` exhibits one such move.
- `Geometry.Domain`: its own contract states only the error kind. The values are stated by `Geometry.DomainSpec`.
- Edge attributes: the `diagonal` flag and the `weight` stored on each edge are not kept on the graph. The flag is recomputed from the pixels (`Kopf.IsDiagonal`), weights travel beside the pairs, and the `edge[2].pop("weight")` at src/heuristics.py:32-34 changes no edge or node, so it has no counterpart.
- `Heuristics.ComputeSingleWeight`: it sums the corrected curve weight of `Heuristics.WeightCurve`, not the value `_weight_curve` returns as written. The value as written is 2 more, or 1 more when neither endpoint has valence 2 (`Heuristics.ComputeSingleWeightAsWritten`). The offset can differ between the two diagonals of a pair, so where the offsets differ the model's removal can differ from the code's, ties included. `Kopf.RemoveDiagonals` and `Heuristics.ApplyHeuristics` state the corrected weights.
- `Raster.SafeAccess` under NEAREST on an empty image: the C++ code indexes outside `data`, which is undefined behaviour, so the model requires a non-empty image.

## Findings

| source | as written | input that shows it | evidently intended | confidence | as-written member | corrected member |
|---|---|---|---|---|---|---|
| src/kopf_lichinski.py:211 | the NEAREST branch for an out-of-range `y` assigns `clamp(y, 0, height - 1)` to `x` | a 3x1 strip: reading `(2, -1)` yields pixel `(0, 0)`, and reading `(0, 1)` raises IndexError | assign the clamped value to `y`, so `(2, -1)` reads `(2, 0)` and `(0, 1)` reads `(0, 0)` | not executed | `Kopf.NearestAsWrittenMisreads` | `Kopf.PixelDataSafeAccess` |
| src/heuristics.py:74 | the visited set starts as `set(sorted_vertices(edge))`, that is the edge's two pixels rather than the edge | a diagonal whose two pixels both have valence other than 2 weighs 2, though its curve has one edge | start the set with the edge itself, so the weight counts edges | not executed | `Heuristics.LoneDiagonalCurveWeights` | `Heuristics.WeightCurve` |
