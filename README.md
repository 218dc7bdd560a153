# Floyd–Steinberg dithering and LSB watermarking, in Dafny

This project models the two pieces of logic in the `stegano-tests` repository:

- **The dithering engine** (`src/floyd_steinberg.py`). `floyd_steinberg` scans an image once, in raster order. Each pixel becomes black or white, `(bw, bw, bw)` with `bw` in {0, 255}. Its quantisation error `grey - bw` goes to neighbours the scan has not reached yet. The weights are the repository's own:
  - left edge: 8/16 east, 6/16 south, 2/16 south-east;
  - interior: 7/16 east, 3/16 south-west, 5/16 south, 1/16 south-east;
  - right edge: 6/16 south-west, 10/16 south;
  - last row: each pixel hands its whole error east, and the final pixel's error is dropped.

  Two correction buffers are swapped after each row.
- **The embedding layer** (`stegano.py`):
  - `apply_lsb` and the per-channel mappers, which write one bit into the lowest bit of the R, G or B channel;
  - the size arithmetic of `constrain_max_size`;
  - `SteganoCallback`. Its constructor centres the watermark in the cover and clears the chosen channel's lowest bit on every cover pixel outside the watermark, in four strips. Its `__call__` writes one bit at a translated position.

Files:
- `pixels.dfy` (module `Pixels`): 8-bit channel values, RGB triples and the channel selector.
- `dither.dfy` (module `Dither`): the engine.
- `stegano.dfy` (module `Stegano`): the embedding layer.

## How the engine is modelled

The source keeps its corrections in float lists. Every value stored there is `k * diff / 16`, with `k` an integer weight and `|diff| <= 127`, or a sum of a few such values. Such values are exact in a double. The model therefore keeps each buffer as an `array<int>` of **sixteenths**. `int(correction[j])` becomes `TruncSixteenths`, which rounds toward zero and is defined separately for negative values. Dafny's `/` rounds differently on negative numbers.

`Dither.FloydSteinberg` works in place on an `array2<Rgb>` indexed `[x, y]`, like PIL's `pixels[x, y]`. It swaps its two buffer references after each row, as the source does. It is proved against an independent **reference definition**: `Correction`, `Grey`, `Diff` and `Bw` give each pixel's result by recursion over raster order, using the diffusion kernel `Weight`.

The proof shows that nothing stale leaks across the swap. `RowInProgress` says nothing about the entries of `correctionNext` that the current row has not yet assigned. `DiffuseRow` requires nothing of that buffer's old contents.

The row loop is split into one method per branch of the source: `DiffuseLeftEdge`, `DiffuseInterior` and `DiffuseRightEdge`. `DiffuseLastRowPixel` covers the last row. `QuantizePixel` is the four-line block the source repeats for each pixel (src/floyd_steinberg.py:22-25).

The engine takes the image's greyscale function as a parameter, `greyscale: Rgb -> int`. The source's float formula is left out. Nothing in the proofs depends on the formula, because `clamp` bounds every grey level.

## Model

| member | source | states |
|---|---|---|
| `Dither.Threshold` | src/floyd_steinberg.py:10-11 | the level is 0 or 255, and it is 255 exactly when the grey value exceeds 127 |
| `Dither.Clamp` | src/floyd_steinberg.py:13-14 | the result is a byte, equals the input when the input is already in [0, 255], and is the byte nearest to the input |
| `Dither.ClampMonotone` | src/floyd_steinberg.py:13-14 | clamping preserves `<=` |
| `Dither.TruncSixteenths` | src/floyd_steinberg.py:22 | `int(c/16)` truncates toward zero: `16*q` has the sign of `c`, is no larger in magnitude, and is less than 16 away from it |
| `Dither.QuantisationErrorBound` | src/floyd_steinberg.py:23-25 | for a grey level in [0, 255], `grey - threshold(grey)` lies in [-127, 127] |
| `Dither.Diff` | src/floyd_steinberg.py:22-25 | every pixel's quantisation error `diff` lies in [-127, 127] |
| `Dither.Bw` | src/floyd_steinberg.py:22-24 | every pixel's level is 0 or 255, is 255 exactly when its corrected grey level exceeds 127, and is within 127 of it |
| `Pixels.Grey3` | src/floyd_steinberg.py:24 | the written pixel `(bw, bw, bw)` has `bw` in every channel |
| `Dither.Weight` | src/floyd_steinberg.py:26-50 | the kernel: each weight is at most 16, and no weight points outside the image: nothing east of or south-east from the last column, nothing south-west from the first, nothing below the last row. `KernelConservesError` checks the sums |
| `Dither.FromAbove` | src/floyd_steinberg.py:27-43 | what `correction_next[x]` holds once row `y` has reached column `upto`: the south-east, south and south-west shares from the pixels above. It is 0 before the row starts and never exceeds 2 + 10 + 6 sixteenths of a largest error. `DiffuseInterior` and `HandedOnPrefix` check it |
| `Dither.Above` | src/floyd_steinberg.py:19-44 | what `correction[x]` holds when row `y` starts: 0 in the first row, which starts from zeros, and otherwise all that the row above sends down |
| `Dither.FromWest` | src/floyd_steinberg.py:26-50 | the share pixel `(x, y)` receives from its west neighbour: none at the left edge, at most 8/16 of a largest error outside the last row, and at most all of it in the last row |
| `Dither.Correction` | src/floyd_steinberg.py:22 | the correction that has reached pixel `(x, y)` when it is scanned, in sixteenths: 0 for the first pixel and never more than 34/16 of a largest error |
| `Dither.Grey` | src/floyd_steinberg.py:22 | the corrected grey level `clamp(greyscale + int(correction))` is less than one level from the exact value `greyscale + correction/16` when that value lies in [0, 255], and 0 or 255 when it lies below 0 or above 255 |
| `Dither.KernelConservesError` | src/floyd_steinberg.py:26-50 | outside the last row every pixel hands on 16 sixteenths of its error (8+6+2, 7+3+5+1, 6+10); in the last row every pixel but the final one hands on all of it and the final one none |
| `Dither.HandedOnPrefix` | src/floyd_steinberg.py:26-43 | in a row other than the last, the first `n` targets have received 16/16 of the error of each pixel before column `n-1`, plus the south and south-west shares of pixel `n-1` and the south-west share of pixel `n` |
| `Dither.LastRowHandedOnPrefix` | src/floyd_steinberg.py:45-50 | in the last row, the first `n` pixels have received the whole error of each pixel before column `n-1` |
| `Dither.RowConservesError` | src/floyd_steinberg.py:21-53 | a row other than the last hands on exactly 16 × its total error; the last row hands on 16 × the error of all its pixels but the final one |
| `Dither.TwoPixelRow` | src/floyd_steinberg.py:45-53 | for a single row of grey values 200 and 50: the first pixel turns white with error -55, all of which goes east; the second clamps to 0 and turns black |
| `Dither.RasterOrderVisitsEachPixelOnce` | src/floyd_steinberg.py:21-53 | raster order has `width*height` entries, all inside the grid, strictly increasing row by row and left to right, covering every pixel: each pixel exactly once |
| `Dither.QuantizePixel` | src/floyd_steinberg.py:22-25 | given the correction the reference assigns to pixel (x, y), it writes `(bw, bw, bw)` with that pixel's reference level, returns its reference error and leaves every other pixel unchanged; the scan moves from "before (x, y)" to "after (x, y)", with every pixel not yet reached still holding its original value |
| `Dither.DiffuseLeftEdge` | src/floyd_steinberg.py:22-28 | after the left-edge pixel the buffers hold the reference corrections for column 1 and the first two assigned down-corrections, whatever `correctionNext` held before |
| `Dither.DiffuseInterior` | src/floyd_steinberg.py:29-37 | one interior pixel moves the buffers from the state at column `j` to the state at column `j+1` of the reference definition |
| `Dither.DiffuseRightEdge` | src/floyd_steinberg.py:38-43 | after the right-edge pixel `correctionNext` holds exactly what the next row receives from this one |
| `Dither.DiffuseRow` | src/floyd_steinberg.py:21-43 | a full non-last row writes the row's reference levels, leaves every later pixel at its original value, and leaves in `correctionNext` the next row's incoming corrections, whatever that buffer held before |
| `Dither.DiffuseLastRowPixel` | src/floyd_steinberg.py:45-50 | a last-row pixel writes its reference level and carries its whole error into the east neighbour's correction |
| `Dither.DiffuseLastRow` | src/floyd_steinberg.py:45-53 | the last row writes its reference levels left to right, the final pixel included |
| `Dither.FloydSteinberg` | src/floyd_steinberg.py:16-53 | on any image with width ≥ 1 and height ≥ 1, and width ≥ 2 when height ≥ 2, every pixel ends as `(bw, bw, bw)` with `bw` the reference level computed from the original greyscale values; the ghost `order` the loops build is `RasterOrder`. The order of the writes themselves is fixed by the contracts of the step methods, each of which writes one pixel and fixes the whole image state |
| `Stegano.ConstrainMaxSize` | stegano.py:15-23 | the size fits the bounds and never exceeds the original; an image that fits is kept as it is; the full width is tried first and kept whenever the height then fits, so `(201, 200)` in `(100, 100)` gives `(100, 99)`; a scaled side is the proportional value rounded down |
| `Stegano.ScaledSide` | stegano.py:16-22 | scaling a side by `bound/side` with `bound < side` rounds down and never enlarges it |
| `Stegano.ScaledFits` | stegano.py:20-22 | scaling to the full height keeps the width within bounds, also when scaling to the full width was refused |
| `Stegano.NoScaleNeeded` | stegano.py:16-23 | when neither scaling branch is taken, the width already fits |
| `Stegano.BitAnd` | stegano.py:27 | Python's `&` on non-negative integers: the result is at most either operand, and its lowest bit is set exactly when both operands' are. `BitAndLowOnes` and `ApplyLsb` check it on `value & 254` |
| `Stegano.BitOr` | stegano.py:27 | Python's bitwise or on non-negative integers: the result is at least either operand and at most their sum, and its lowest bit is set exactly when either operand's is. `ApplyLsb` checks it on `value` or 1 |
| `Stegano.BitAndLowOnes` | stegano.py:27 | masking with `k` low one-bits keeps any value below `2^k` (used for `value & 254`) |
| `Stegano.ApplyLsb` | stegano.py:26-27 | the result's lowest bit is 0 when `lsb == 0` and 1 otherwise; bits 1–7 are those of `value`, and the result stays in [0, 255] |
| `Stegano.LastWriteWins` | stegano.py:26-27 | `apply_lsb(apply_lsb(v, a), b) == apply_lsb(v, b)`; in particular it is idempotent |
| `Stegano.MapPixel` | stegano.py:29-33 | the selected channel becomes `apply_lsb` of its old value; the other two channels pass through |
| `Stegano.MapPixelLastWriteWins` | stegano.py:29-33 | mapping the same channel twice keeps only the second bit |
| `Stegano.CentredOffset` | stegano.py:40-41 | for `size <= cover`, the offset is non-negative and the span ends inside the cover; the margin after the span equals the margin before it or exceeds it by one |
| `Stegano.Window` | stegano.py:40-41 | where the watermark lands: at the centred offsets; for a watermark no larger than the cover, inside the cover, with `width * height` pixels |
| `Stegano.BorderStrips` | stegano.py:44-59 | the ranges of the four loops, in order: the columns left and right of the window over the full height, then the window's columns above and below it. `BorderPartition` checks that they tile the border |
| `Stegano.BorderPartition` | stegano.py:44-59 | the four strips lie in the cover and are pairwise disjoint; together they cover exactly the cover pixels outside the watermark window, `W*H - w*h` pixels in all |
| `Stegano.BorderCovers` | stegano.py:44-59 | a cover pixel is outside the window exactly when some strip contains it |
| `Stegano.BorderArea` | stegano.py:44-59 | the strips' areas add up to `W*H - w*h` |
| `Stegano.ClearStrip` | stegano.py:44-47 | one strip loop gives LSB 0 in the chosen channel to every pixel of its strip, leaves every other pixel unchanged, and visits `area` pixels |
| `Stegano.SteganoCallback.constructor` | stegano.py:38-59 | the offsets are the centred ones; each cover pixel outside the window gets LSB 0 in the chosen channel with its other channels unchanged; pixels inside the window are untouched; `W*H - w*h` pixels are visited |
| `Stegano.SteganoCallback.Emit` | stegano.py:61-65 | only cover pixel `(x + xOffset, y + yOffset)` changes, by the channel mapper with bit `v`; the visit count grows by one |

## Left out

- The greyscale formula of `greyscale` (src/floyd_steinberg.py:7-8) is left out because it is floating-point arithmetic with non-dyadic weights. The engine takes the greyscale function as the parameter `greyscale`.
- Image I/O is left out: `Image.open`, `img.load`, `img.show()` (src/floyd_steinberg.py:54), `save` and the `resize` call in `constrain_max_size`. The pixel buffer is an `array2<Rgb>`, and only the size arithmetic of resizing is modelled.
- The tqdm progress bar is reporting only. The ghost counter `SteganoCallback.visits` stands in for its count.
- The command line is left out: `help`, `main`, argument and channel validation, and the whole of `floyd-steinberg.py`, which only opens `pie.jpg` and calls the engine.
- The commented-out draft at src/floyd_steinberg.py:56-68 is left out.
- `stegano.py:92` calls `floyd_steinberg(stegano_img, callback)`, but the engine takes only the image and never calls a callback. The model follows the engine as written: it writes `(bw, bw, bw)` into its own grid. `SteganoCallback` is modelled on its own, with no link between the two.
- Whiteboard polarity and a background bit do not exist in the code, so they are not modelled. The border bit is always 0.
- Dither.FloydSteinberg: its requires excludes images of width 0 or height 0, and width 1 with height ≥ 2. The source raises IndexError on all of them:
  - width 1, height ≥ 2: pixel (0, 0) is already overwritten at src/floyd_steinberg.py:24, and then `correction[1]` fails at :26;
  - width 0, height 1: `pixels[-1, 0]` is out of range at :51, read before the empty list `correction` would be indexed there;
  - width 0, height ≥ 2: `pixels[0, 0]` is out of range at :22;
  - height 0: `pixels[0, -1]` is out of range at :46 when the width is 2 or more, and `pixels[width-1, -1]` at :51 when the width is 0 or 1.
- Stegano.ApplyLsb: the argument is an 8-bit channel value. The Python function accepts any integer, but it is only applied to pixel channels. `BitAnd` and `BitOr` model Python's `&` and `|` on all non-negative integers.
- Stegano.ClearStrip: it loops `x` outside and `y` inside for all four strips. The source nests them the other way round for the last two strips (stegano.py:52-59). No pixel is written twice, so the final image is the same. Only the order of progress-bar updates differs, and that is not modelled.
- Stegano.SteganoCallback.constructor: it requires the watermark to fit inside the cover, which the caller's `constrain_max_size` guarantees. With a larger watermark the source would compute negative offsets and write outside the window.
- Stegano.SteganoCallback.Emit: it requires the translated position to lie inside the cover. The source's pixel access counts a negative translated coordinate from the far edge of the cover and raises IndexError beyond that. Every position a watermark scan emits lies inside the window, which fits in the cover, so no caller reaches either case.
- `constrain_max_size` can produce a zero side; for example, a 1×1000 image in a 5×1 cover gives `(0, 1)`. `ConstrainMaxSize` states this faithfully. The engine's requires rejects such an image.
