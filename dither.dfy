/** Floyd-Steinberg dithering as src/floyd_steinberg.py implements it: a
    single forward raster scan that turns each pixel black or white and
    hands the quantisation error on to unvisited neighbours, with the
    repository's own weights at the left and right edges and a simpler
    rule in the last row.

    The correction buffers of the source hold floats of the form
    `k * diff / 16`; here they hold the same values as integers counted in
    sixteenths, so that `int(correction[j])` is `TruncSixteenths`. */
module Dither {
  import opened Pixels

  // ---------------------------------------------------------------------
  // Per-pixel helpers
  // ---------------------------------------------------------------------

  /** `threshold`: white above 127, black otherwise. */
  function Threshold(grey: int): (bw: Byte)
    ensures bw == 0 || bw == 255
    ensures bw == 255 <==> grey > 127
  {
    if grey > 127 then 255 else 0
  }

  /** The distance between two integers. */
  function Distance(a: int, b: int): nat
  {
    if a >= b then a - b else b - a
  }

  /** `clamp`: the value brought into `[0, 255]`. */
  function Clamp(value: int): (r: Byte)
    ensures 0 <= value <= 255 ==> r == value
    // no byte is closer to `value` than `r`
    ensures forall b: Byte :: Distance(r, value) <= Distance(b, value)
  {
    if value >= 255 then 255 else if value >= 0 then value else 0
  }

  /** Clamping keeps the order of its arguments. */
  lemma ClampMonotone(a: int, b: int)
    requires a <= b
    ensures Clamp(a) <= Clamp(b)
  {
  }

  /** `int(c / 16)` for a correction of `c` sixteenths: the quotient rounded toward zero. */
  function TruncSixteenths(c: int): (q: int)
    ensures 0 <= c ==> 0 <= 16 * q <= c < 16 * q + 16
    ensures c < 0 ==> 16 * q - 16 < c <= 16 * q <= 0
  {
    if c >= 0 then c / 16 else -((-c) / 16)
  }

  /** A clamped grey level is at most 127 away from its threshold. */
  lemma QuantisationErrorBound(grey: Byte)
    ensures -127 <= grey - Threshold(grey) <= 127
  {
  }

  // ---------------------------------------------------------------------
  // The diffusion kernel
  // ---------------------------------------------------------------------

  /** The neighbours a pixel hands error to: east in its own row, and
      south-west, south and south-east in the row below. */
  datatype Direction = East | SouthWest | South | SouthEast

  /** The sixteenths of its error that the pixel in column `x` of a row of
      `width` pixels hands on in direction `d`; `lastRow` says whether the
      row is the image's last. In any row but the last: 8, 6 and 2 from the
      left edge, 7, 3, 5 and 1 from the interior, 6 and 10 from the right
      edge. In the last row: all of it east, and nothing from the last pixel. */
  function Weight(width: nat, lastRow: bool, x: nat, d: Direction): (w: nat)
    ensures w <= 16
    // error only ever goes to pixels inside the image
    ensures x + 1 >= width && (d == East || d == SouthEast) ==> w == 0
    ensures x == 0 && d == SouthWest ==> w == 0
    ensures lastRow && d != East ==> w == 0
  {
    match d
    case East => if x + 1 >= width then 0 else if lastRow then 16 else if x == 0 then 8 else 7
    case SouthWest => if lastRow || x == 0 then 0 else if x + 1 == width then 6 else 3
    case South => if lastRow then 0 else if x == 0 then 6 else if x + 1 == width then 10 else 5
    case SouthEast => if lastRow || x + 1 >= width then 0 else if x == 0 then 2 else 1
  }

  /** All the weights a pixel hands on. */
  function Outgoing(width: nat, lastRow: bool, x: nat): nat
  {
    Weight(width, lastRow, x, East) + Weight(width, lastRow, x, SouthWest) +
    Weight(width, lastRow, x, South) + Weight(width, lastRow, x, SouthEast)
  }

  /** Error is conserved: outside the last row every pixel hands on exactly
      16 sixteenths of its error (8+6+2, 7+3+5+1, 6+10); in the last row
      every pixel but the final one hands on all of it, and the final one none. */
  lemma KernelConservesError(width: nat, lastRow: bool, x: nat)
    requires x < width
    requires !lastRow ==> width >= 2
    ensures Outgoing(width, lastRow, x) == if lastRow && x + 1 == width then 0 else 16
  {
  }

  // ---------------------------------------------------------------------
  // The reference definition of the scan
  // ---------------------------------------------------------------------

  /** `L` holds the greyscale value `L[y][x]` of each pixel of a `width`-wide
      image, row by row, and has a shape the scan accepts: at least one row
      and one column, and at least two columns when there are two rows or
      more (the left-edge rule writes to column 1). */
  predicate Accepts(L: seq<seq<int>>, width: nat)
  {
    |L| >= 1 && width >= 1 && (|L| >= 2 ==> width >= 2) &&
    forall y :: 0 <= y < |L| ==> |L[y]| == width
  }

  /** The sixteenths pixel `(x, y + 1)` receives from the pixels of row `y`
      in columns below `upto`: from the north-west, north and north-east.
      With `upto == width` this is all that row `y` hands to it. */
  function FromAbove(L: seq<seq<int>>, width: nat, y: nat, x: nat, upto: nat): (c: int)
    requires Accepts(L, width) && y + 1 < |L| && x < width && upto <= width
    ensures upto == 0 ==> c == 0
    // at most 2 + 10 + 6 sixteenths of a largest error
    ensures -18 * 127 <= c <= 18 * 127
    decreases y * width + x + 1, 4
  {
    (if 0 < x && x - 1 < upto then Share(Weight(width, false, x - 1, SouthEast), Diff(L, width, y, x - 1)) else 0) +
    (if x < upto then Share(Weight(width, false, x, South), Diff(L, width, y, x)) else 0) +
    (if x + 1 < width && x + 1 < upto then Share(Weight(width, false, x + 1, SouthWest), Diff(L, width, y, x + 1)) else 0)
  }

  /** `w` sixteenths of an error `d` of at most 127 in size. */
  function Share(w: nat, d: int): (s: int)
    requires -127 <= d <= 127
    ensures -127 * w <= s <= 127 * w
  {
    w * d
  }

  /** The sixteenths pixel `(x, y)` receives from the row above it. */
  function Above(L: seq<seq<int>>, width: nat, y: nat, x: nat): (c: int)
    requires Accepts(L, width) && y < |L| && x < width
    // the first row starts from zero corrections
    ensures y == 0 ==> c == 0
    ensures -18 * 127 <= c <= 18 * 127
    decreases y * width + x, 0
  {
    if y == 0 then 0
    else
      assert (y - 1) * width + x + 1 < y * width + x by { assert y * width == (y - 1) * width + width; }
      FromAbove(L, width, y - 1, x, width)
  }

  /** The sixteenths pixel `(x, y)` receives from its west neighbour. */
  function FromWest(L: seq<seq<int>>, width: nat, y: nat, x: nat): (c: int)
    requires Accepts(L, width) && y < |L| && x < width
    ensures x == 0 ==> c == 0
    // outside the last row at most 8 sixteenths of a largest error, in it all of it
    ensures y + 1 < |L| ==> -8 * 127 <= c <= 8 * 127
    ensures -16 * 127 <= c <= 16 * 127
    decreases y * width + x, 0
  {
    if x == 0 then 0 else Share(Weight(width, y + 1 == |L|, x - 1, East), Diff(L, width, y, x - 1))
  }

  /** The correction, in sixteenths, that has reached pixel `(x, y)` when the scan gets there. */
  function Correction(L: seq<seq<int>>, width: nat, y: nat, x: nat): (c: int)
    requires Accepts(L, width) && y < |L| && x < width
    ensures x == 0 && y == 0 ==> c == 0
    ensures -34 * 127 <= c <= 34 * 127
    decreases y * width + x, 1
  {
    FromWest(L, width, y, x) + Above(L, width, y, x)
  }

  /** The corrected and clamped grey level of pixel `(x, y)`. */
  function Grey(L: seq<seq<int>>, width: nat, y: nat, x: nat): (grey: Byte)
    requires Accepts(L, width) && y < |L| && x < width
    // less than one level from the exact corrected value `L[y][x] + c / 16`
    // whenever that value is itself within [0, 255]
    ensures var exact := 16 * L[y][x] + Correction(L, width, y, x);
      0 <= exact <= 16 * 255 ==> exact - 16 < 16 * grey < exact + 16
    // saturates outside it
    ensures var exact := 16 * L[y][x] + Correction(L, width, y, x);
      (exact < 0 ==> grey == 0) && (exact > 16 * 255 ==> grey == 255)
    decreases y * width + x, 2
  {
    Clamp(L[y][x] + TruncSixteenths(Correction(L, width, y, x)))
  }

  /** The quantisation error of pixel `(x, y)`, `grey - bw`. */
  function Diff(L: seq<seq<int>>, width: nat, y: nat, x: nat): (d: int)
    requires Accepts(L, width) && y < |L| && x < width
    ensures -127 <= d <= 127
    decreases y * width + x, 3
  {
    var grey := Grey(L, width, y, x);
    QuantisationErrorBound(grey);
    grey - Threshold(grey)
  }

  /** The black-or-white level the scan gives pixel `(x, y)`. */
  function Bw(L: seq<seq<int>>, width: nat, y: nat, x: nat): (bw: Byte)
    requires Accepts(L, width) && y < |L| && x < width
    ensures bw == 0 || bw == 255
    ensures bw == 255 <==> Grey(L, width, y, x) > 127
    ensures -127 <= Grey(L, width, y, x) - bw <= 127
  {
    Threshold(Grey(L, width, y, x))
  }

  // ---------------------------------------------------------------------
  // Error conservation, row by row
  // ---------------------------------------------------------------------

  /** The quantisation error of the first `n` pixels of row `y`. */
  function RowError(L: seq<seq<int>>, width: nat, y: nat, n: nat): int
    requires Accepts(L, width) && y < |L| && n <= width
  {
    if n == 0 then 0 else RowError(L, width, y, n - 1) + Diff(L, width, y, n - 1)
  }

  /** The sixteenths that row `y` hands to the first `n` pixels of its own
      row (from the west) and of the row below it (from above). */
  function HandedOn(L: seq<seq<int>>, width: nat, y: nat, n: nat): int
    requires Accepts(L, width) && y < |L| && n <= width
  {
    if n == 0 then 0
    else
      HandedOn(L, width, y, n - 1) + FromWest(L, width, y, n - 1) +
      (if y + 1 < |L| then FromAbove(L, width, y, n - 1, width) else 0)
  }

  /** Within a row other than the last, the first `n` targets have received
      sixteen sixteenths of the error of every pixel before column `n - 1`,
      the south and south-west shares of pixel `n - 1`, and the south-west
      share of pixel `n`. */
  lemma {:induction false} HandedOnPrefix(L: seq<seq<int>>, width: nat, y: nat, n: nat)
    requires Accepts(L, width) && y + 1 < |L| && 1 <= n <= width
    ensures HandedOn(L, width, y, n) ==
      16 * RowError(L, width, y, n - 1) +
      Weight(width, false, n - 1, South) * Diff(L, width, y, n - 1) +
      Weight(width, false, n - 1, SouthWest) * Diff(L, width, y, n - 1) +
      (if n < width then Weight(width, false, n, SouthWest) * Diff(L, width, y, n) else 0)
  {
    if n > 1 {
      HandedOnPrefix(L, width, y, n - 1);
      var s := n - 2;
      var d := Diff(L, width, y, s);
      var east, southWest, south, southEast :=
        Weight(width, false, s, East), Weight(width, false, s, SouthWest),
        Weight(width, false, s, South), Weight(width, false, s, SouthEast);
      KernelConservesError(width, false, s);
      assert east + southWest + south + southEast == 16;
      AddMul4(east, southWest, south, southEast, d);
      var dNext := Diff(L, width, y, n - 1);
      var fromEast := if n < width then Weight(width, false, n, SouthWest) * Diff(L, width, y, n) else 0;
      assert FromWest(L, width, y, n - 1) == east * d;
      assert FromAbove(L, width, y, n - 1, width) ==
        southEast * d + Weight(width, false, n - 1, South) * dNext + fromEast;
      assert HandedOn(L, width, y, n) ==
        HandedOn(L, width, y, n - 1) + FromWest(L, width, y, n - 1) + FromAbove(L, width, y, n - 1, width);
      assert RowError(L, width, y, n - 1) == RowError(L, width, y, s) + d;
    }
  }

  /** `(a + b + c + e) * d == a * d + b * d + c * d + e * d`. */
  lemma AddMul4(a: int, b: int, c: int, e: int, d: int)
    ensures (a + b + c + e) * d == a * d + b * d + c * d + e * d
  {
  }

  /** In the last row the first `n` pixels have received the whole error of
      every pixel before column `n - 1`. */
  lemma {:induction false} LastRowHandedOnPrefix(L: seq<seq<int>>, width: nat, n: nat)
    requires Accepts(L, width) && 1 <= n <= width
    ensures HandedOn(L, width, |L| - 1, n) == 16 * RowError(L, width, |L| - 1, n - 1)
  {
    if n > 1 {
      LastRowHandedOnPrefix(L, width, n - 1);
    }
  }

  /** Error conservation over a row: a row other than the last hands on, to
      its own row and the row below, exactly sixteen sixteenths of its
      total quantisation error; the last row hands on that of all its
      pixels but the final one, whose error is dropped. */
  lemma RowConservesError(L: seq<seq<int>>, width: nat, y: nat)
    requires Accepts(L, width) && y < |L|
    ensures HandedOn(L, width, y, width) ==
      16 * (if y + 1 < |L| then RowError(L, width, y, width) else RowError(L, width, y, width - 1))
  {
    if y + 1 < |L| {
      HandedOnPrefix(L, width, y, width);
      var d := Diff(L, width, y, width - 1);
      assert Weight(width, false, width - 1, South) == 10 && Weight(width, false, width - 1, SouthWest) == 6;
      assert RowError(L, width, y, width) == RowError(L, width, y, width - 1) + d;
    } else {
      LastRowHandedOnPrefix(L, width, width);
    }
  }

  /** A single row of greyscale values 200 and 50: the first pixel turns
      white with error -55, which the last-row rule hands whole to the
      second; 50 - 55 clamps to 0, which turns black. */
  lemma TwoPixelRow(L: seq<seq<int>>)
    requires L == [[200, 50]]
    ensures Accepts(L, 2)
    ensures Bw(L, 2, 0, 0) == 255 && Diff(L, 2, 0, 0) == -55
    ensures Grey(L, 2, 0, 1) == 0 && Bw(L, 2, 0, 1) == 0
  {
    assert Accepts(L, 2);
    assert Correction(L, 2, 0, 0) == 0 by {
      assert FromWest(L, 2, 0, 0) == 0 && Above(L, 2, 0, 0) == 0;
    }
    assert Grey(L, 2, 0, 0) == 200 by {
      assert TruncSixteenths(0) == 0;
    }
    assert Diff(L, 2, 0, 0) == -55;
    assert Correction(L, 2, 0, 1) == -880 by {
      assert Weight(2, true, 0, East) == 16;
      assert FromWest(L, 2, 0, 1) == 16 * -55 && Above(L, 2, 0, 1) == 0;
    }
    assert Grey(L, 2, 0, 1) == 0 by {
      assert TruncSixteenths(-880) == -55;
    }
  }

  // ---------------------------------------------------------------------
  // Raster order
  // ---------------------------------------------------------------------

  /** The pixels of row `y`, left to right. */
  function RowOrder(width: nat, y: nat): seq<(nat, nat)>
  {
    seq(width, x => (x, y))
  }

  /** The pixels of the first `height` rows in raster order. */
  function RasterOrder(width: nat, height: nat): seq<(nat, nat)>
  {
    if height == 0 then [] else RasterOrder(width, height - 1) + RowOrder(width, height - 1)
  }

  /** Pixel `p` comes strictly before pixel `q` in raster order. */
  predicate RasterBefore(p: (nat, nat), q: (nat, nat))
  {
    p.1 < q.1 || (p.1 == q.1 && p.0 < q.0)
  }

  /** Raster order lists each pixel of the grid exactly once, row by row and
      left to right within a row, `width * height` pixels in all. */
  lemma {:induction false} RasterOrderVisitsEachPixelOnce(width: nat, height: nat)
    ensures var order := RasterOrder(width, height);
      |order| == width * height &&
      (forall k :: 0 <= k < |order| ==> order[k].0 < width && order[k].1 < height) &&
      (forall k1, k2 :: 0 <= k1 < k2 < |order| ==> RasterBefore(order[k1], order[k2])) &&
      (forall x: nat, y: nat :: x < width && y < height ==> (x, y) in order)
  {
    if height > 0 {
      RasterOrderVisitsEachPixelOnce(width, height - 1);
      var before := RasterOrder(width, height - 1);
      var row := RowOrder(width, height - 1);
      var order := before + row;
      assert |order| == width * height by {
        assert width * height == width * (height - 1) + width;
      }
      forall x: nat, y: nat | x < width && y < height
        ensures (x, y) in order
      {
        if y < height - 1 {
          assert (x, y) in before;
        } else {
          assert row[x] == (x, y);
        }
      }
    }
  }

  // ---------------------------------------------------------------------
  // The scan, in place
  // ---------------------------------------------------------------------

  /** The greyscale value of every pixel of `pixels`, row by row. */
  ghost function Lumas(pixels: array2<Rgb>, greyscale: Rgb -> int): (L: seq<seq<int>>)
    reads pixels
    ensures |L| == pixels.Length1
    ensures forall y :: 0 <= y < |L| ==> |L[y]| == pixels.Length0
    ensures forall x, y :: 0 <= x < pixels.Length0 && 0 <= y < pixels.Length1 ==> L[y][x] == greyscale(pixels[x, y])
  {
    seq(pixels.Length1, y requires 0 <= y < pixels.Length1 reads pixels =>
      seq(pixels.Length0, x requires 0 <= x < pixels.Length0 reads pixels => greyscale(pixels[x, y])))
  }

  /** The pixels of `pixels`, row by row. */
  ghost function Snapshot(pixels: array2<Rgb>): (orig: seq<seq<Rgb>>)
    reads pixels
    ensures |orig| == pixels.Length1
    ensures forall y :: 0 <= y < |orig| ==> |orig[y]| == pixels.Length0
    ensures forall x, y :: 0 <= x < pixels.Length0 && 0 <= y < pixels.Length1 ==> orig[y][x] == pixels[x, y]
  {
    seq(pixels.Length1, y requires 0 <= y < pixels.Length1 reads pixels =>
      seq(pixels.Length0, x requires 0 <= x < pixels.Length0 reads pixels => pixels[x, y]))
  }

  /** The scan has reached pixel `(x, y)` of an image whose pixels were
      `orig`, of greyscale values `L`: every pixel before it in raster order
      holds its black-or-white level, and every other pixel still holds its
      original value. */
  ghost predicate ScannedUpTo(pixels: array2<Rgb>, greyscale: Rgb -> int, L: seq<seq<int>>, orig: seq<seq<Rgb>>,
                              y: nat, x: nat)
    reads pixels
    requires Accepts(L, pixels.Length0) && |L| == pixels.Length1
  {
    |orig| == pixels.Length1 &&
    (forall py :: 0 <= py < |orig| ==> |orig[py]| == pixels.Length0) &&
    forall px, py :: 0 <= px < pixels.Length0 && 0 <= py < pixels.Length1 ==>
      greyscale(orig[py][px]) == L[py][px] &&
      if py < y || (py == y && px < x) then pixels[px, py] == Grey3(Bw(L, pixels.Length0, py, px))
      else pixels[px, py] == orig[py][px]
  }

  /** Having scanned a whole row is having reached the start of the next. */
  lemma RowScanned(pixels: array2<Rgb>, greyscale: Rgb -> int, L: seq<seq<int>>, orig: seq<seq<Rgb>>, y: nat)
    requires Accepts(L, pixels.Length0) && |L| == pixels.Length1
    requires ScannedUpTo(pixels, greyscale, L, orig, y, pixels.Length0)
    ensures ScannedUpTo(pixels, greyscale, L, orig, y + 1, 0)
  {
  }

  /** One pixel of the scan (src/floyd_steinberg.py:22-25 and its copies):
      add the truncated correction to the pixel's greyscale value, clamp it,
      threshold it, write the grey pixel `(bw, bw, bw)` and return the error
      `grey - bw`. */
  method QuantizePixel(pixels: array2<Rgb>, greyscale: Rgb -> int, ghost L: seq<seq<int>>, ghost orig: seq<seq<Rgb>>,
                       x: nat, y: nat, correction: int) returns (diff: int)
    requires Accepts(L, pixels.Length0) && |L| == pixels.Length1
    requires x < pixels.Length0 && y < pixels.Length1
    requires ScannedUpTo(pixels, greyscale, L, orig, y, x)
    requires correction == Correction(L, pixels.Length0, y, x)
    modifies pixels
    ensures pixels[x, y] == Grey3(Bw(L, pixels.Length0, y, x))
    ensures forall px, py :: 0 <= px < pixels.Length0 && 0 <= py < pixels.Length1 && (px, py) != (x, y) ==>
      pixels[px, py] == old(pixels[px, py])
    ensures ScannedUpTo(pixels, greyscale, L, orig, y, x + 1)
    ensures diff == Diff(L, pixels.Length0, y, x)
  {
    var grey: int := Clamp(greyscale(pixels[x, y]) + TruncSixteenths(correction));
    var bw := Threshold(grey);
    pixels[x, y] := Grey3(bw);
    diff := grey - bw;
  }

  /** Where the correction buffers stand in a row other than the last once
      the scan has reached column `j`: `correction[j]` holds everything
      pixel `(j, y)` receives, the entries to its right what the row above
      sent them, and `correctionNext` up to column `j` what row `y` has sent
      down so far. Nothing is said of the entries of `correctionNext` beyond
      `j`: what they held before the row does not matter. */
  ghost predicate RowInProgress(L: seq<seq<int>>, width: nat, y: nat, j: nat,
                                correction: array<int>, correctionNext: array<int>)
    reads correction, correctionNext
    requires Accepts(L, width) && y + 1 < |L| && j < width
    requires correction.Length == width && correctionNext.Length == width
  {
    correction[j] == Correction(L, width, y, j) &&
    (forall x :: j < x < width ==> correction[x] == Above(L, width, y, x)) &&
    (forall x :: 0 <= x <= j ==> correctionNext[x] == FromAbove(L, width, y, x, j))
  }

  /** The left edge of a row other than the last (src/floyd_steinberg.py:22-28):
      8/16 of the error east, 6/16 south, 2/16 south-east; the two entries of
      `correctionNext` are assigned, not added to. */
  method DiffuseLeftEdge(pixels: array2<Rgb>, greyscale: Rgb -> int, ghost L: seq<seq<int>>, ghost orig: seq<seq<Rgb>>, y: nat,
                         correction: array<int>, correctionNext: array<int>)
    requires Accepts(L, pixels.Length0) && |L| == pixels.Length1 && y + 1 < |L|
    requires correction != correctionNext
    requires correction.Length == pixels.Length0 && correctionNext.Length == pixels.Length0
    requires forall x :: 0 <= x < pixels.Length0 ==> correction[x] == Above(L, pixels.Length0, y, x)
    requires ScannedUpTo(pixels, greyscale, L, orig, y, 0)
    modifies pixels, correction, correctionNext
    ensures ScannedUpTo(pixels, greyscale, L, orig, y, 1)
    ensures RowInProgress(L, pixels.Length0, y, 1, correction, correctionNext)
  {
    var diff := QuantizePixel(pixels, greyscale, L, orig, 0, y, correction[0]);
    correction[1] := correction[1] + 8 * diff;
    correctionNext[0] := 6 * diff;
    correctionNext[1] := 2 * diff;
  }

  /** An interior pixel of a row other than the last (src/floyd_steinberg.py:30-37):
      7/16 of the error east, 3/16 south-west, 5/16 south, 1/16 south-east;
      the south-east entry is assigned, not added to. */
  method DiffuseInterior(pixels: array2<Rgb>, greyscale: Rgb -> int, ghost L: seq<seq<int>>, ghost orig: seq<seq<Rgb>>, y: nat, j: nat,
                         correction: array<int>, correctionNext: array<int>)
    requires Accepts(L, pixels.Length0) && |L| == pixels.Length1 && y + 1 < |L|
    requires 0 < j < pixels.Length0 - 1
    requires correction != correctionNext
    requires correction.Length == pixels.Length0 && correctionNext.Length == pixels.Length0
    requires ScannedUpTo(pixels, greyscale, L, orig, y, j)
    requires RowInProgress(L, pixels.Length0, y, j, correction, correctionNext)
    modifies pixels, correction, correctionNext
    ensures ScannedUpTo(pixels, greyscale, L, orig, y, j + 1)
    ensures RowInProgress(L, pixels.Length0, y, j + 1, correction, correctionNext)
  {
    var diff := QuantizePixel(pixels, greyscale, L, orig, j, y, correction[j]);
    correction[j + 1] := correction[j + 1] + 7 * diff;
    correctionNext[j - 1] := correctionNext[j - 1] + 3 * diff;
    correctionNext[j] := correctionNext[j] + 5 * diff;
    correctionNext[j + 1] := 1 * diff;
    forall x | 0 <= x <= j + 1
      ensures correctionNext[x] == FromAbove(L, pixels.Length0, y, x, j + 1)
    {
      if x + 1 < j {
        // every neighbour above that sends to `x` lies before column `j`
        assert FromAbove(L, pixels.Length0, y, x, j + 1) == FromAbove(L, pixels.Length0, y, x, j);
      }
    }
    assert correction[j + 1] == Correction(L, pixels.Length0, y, j + 1);
    assert forall x :: j + 1 < x < pixels.Length0 ==> correction[x] == Above(L, pixels.Length0, y, x);
  }

  /** The right edge of a row other than the last (src/floyd_steinberg.py:38-43):
      6/16 of the error south-west and 10/16 south; after it `correctionNext`
      holds all that the row sends down. */
  method DiffuseRightEdge(pixels: array2<Rgb>, greyscale: Rgb -> int, ghost L: seq<seq<int>>, ghost orig: seq<seq<Rgb>>, y: nat,
                          correction: array<int>, correctionNext: array<int>)
    requires Accepts(L, pixels.Length0) && |L| == pixels.Length1 && y + 1 < |L|
    requires correction != correctionNext
    requires correction.Length == pixels.Length0 && correctionNext.Length == pixels.Length0
    requires ScannedUpTo(pixels, greyscale, L, orig, y, pixels.Length0 - 1)
    requires RowInProgress(L, pixels.Length0, y, pixels.Length0 - 1, correction, correctionNext)
    modifies pixels, correctionNext
    ensures ScannedUpTo(pixels, greyscale, L, orig, y + 1, 0)
    ensures forall x :: 0 <= x < pixels.Length0 ==> correctionNext[x] == Above(L, pixels.Length0, y + 1, x)
  {
    var width := pixels.Length0;
    var diff := QuantizePixel(pixels, greyscale, L, orig, width - 1, y, correction[width - 1]);
    correctionNext[width - 2] := correctionNext[width - 2] + 6 * diff;
    correctionNext[width - 1] := correctionNext[width - 1] + 10 * diff;
    RowScanned(pixels, greyscale, L, orig, y);
  }

  /** A row other than the last (src/floyd_steinberg.py:22-43): the left
      edge, the interior pixels left to right, the right edge. */
  method DiffuseRow(pixels: array2<Rgb>, greyscale: Rgb -> int, ghost L: seq<seq<int>>, ghost orig: seq<seq<Rgb>>, y: nat,
                    correction: array<int>, correctionNext: array<int>) returns (ghost visited: seq<(nat, nat)>)
    requires Accepts(L, pixels.Length0) && |L| == pixels.Length1 && y + 1 < |L|
    requires correction != correctionNext
    requires correction.Length == pixels.Length0 && correctionNext.Length == pixels.Length0
    requires forall x :: 0 <= x < pixels.Length0 ==> correction[x] == Above(L, pixels.Length0, y, x)
    requires ScannedUpTo(pixels, greyscale, L, orig, y, 0)
    modifies pixels, correction, correctionNext
    ensures ScannedUpTo(pixels, greyscale, L, orig, y + 1, 0)
    ensures forall x :: 0 <= x < pixels.Length0 ==> correctionNext[x] == Above(L, pixels.Length0, y + 1, x)
    ensures visited == RowOrder(pixels.Length0, y)
  {
    var width := pixels.Length0;
    DiffuseLeftEdge(pixels, greyscale, L, orig, y, correction, correctionNext);
    visited := [(0, y)];
    var j := 1;
    while j < width - 1
      invariant 1 <= j <= width - 1
      invariant ScannedUpTo(pixels, greyscale, L, orig, y, j)
      invariant RowInProgress(L, width, y, j, correction, correctionNext)
      invariant visited == RowOrder(width, y)[..j]
    {
      DiffuseInterior(pixels, greyscale, L, orig, y, j, correction, correctionNext);
      visited := visited + [(j, y)];
      j := j + 1;
    }
    DiffuseRightEdge(pixels, greyscale, L, orig, y, correction, correctionNext);
    visited := visited + [(width - 1, y)];
  }

  /** A pixel of the last row other than the final one (src/floyd_steinberg.py:46-50):
      its whole error goes to its east neighbour. */
  method DiffuseLastRowPixel(pixels: array2<Rgb>, greyscale: Rgb -> int, ghost L: seq<seq<int>>, ghost orig: seq<seq<Rgb>>, j: nat,
                             correction: array<int>)
    requires Accepts(L, pixels.Length0) && |L| == pixels.Length1 && j + 1 < pixels.Length0
    requires correction.Length == pixels.Length0
    requires ScannedUpTo(pixels, greyscale, L, orig, |L| - 1, j)
    requires correction[j] == Correction(L, pixels.Length0, |L| - 1, j)
    requires forall x :: j < x < pixels.Length0 ==> correction[x] == Above(L, pixels.Length0, |L| - 1, x)
    modifies pixels, correction
    ensures ScannedUpTo(pixels, greyscale, L, orig, |L| - 1, j + 1)
    ensures correction[j + 1] == Correction(L, pixels.Length0, |L| - 1, j + 1)
    ensures forall x :: j + 1 < x < pixels.Length0 ==> correction[x] == Above(L, pixels.Length0, |L| - 1, x)
  {
    var diff := QuantizePixel(pixels, greyscale, L, orig, j, pixels.Length1 - 1, correction[j]);
    // the whole of `diff`, sixteen sixteenths of it
    correction[j + 1] := correction[j + 1] + 16 * diff;
  }

  /** The last row (src/floyd_steinberg.py:45-53): each pixel but the final
      one hands its whole error to its east neighbour; the final pixel's
      error goes nowhere. */
  method DiffuseLastRow(pixels: array2<Rgb>, greyscale: Rgb -> int, ghost L: seq<seq<int>>, ghost orig: seq<seq<Rgb>>,
                        correction: array<int>) returns (ghost visited: seq<(nat, nat)>)
    requires Accepts(L, pixels.Length0) && |L| == pixels.Length1
    requires correction.Length == pixels.Length0
    requires forall x :: 0 <= x < pixels.Length0 ==> correction[x] == Above(L, pixels.Length0, |L| - 1, x)
    requires ScannedUpTo(pixels, greyscale, L, orig, |L| - 1, 0)
    modifies pixels, correction
    ensures ScannedUpTo(pixels, greyscale, L, orig, |L|, 0)
    ensures visited == RowOrder(pixels.Length0, |L| - 1)
  {
    var width, height := pixels.Length0, pixels.Length1;
    visited := [];
    var j := 0;
    while j < width - 1
      invariant 0 <= j <= width - 1
      invariant ScannedUpTo(pixels, greyscale, L, orig, height - 1, j)
      invariant correction[j] == Correction(L, width, height - 1, j)
      invariant forall x :: j < x < width ==> correction[x] == Above(L, width, height - 1, x)
      invariant visited == RowOrder(width, height - 1)[..j]
    {
      DiffuseLastRowPixel(pixels, greyscale, L, orig, j, correction);
      visited := visited + [(j, height - 1)];
      j := j + 1;
    }
    var _ := QuantizePixel(pixels, greyscale, L, orig, width - 1, height - 1, correction[width - 1]);
    visited := visited + [(width - 1, height - 1)];
    RowScanned(pixels, greyscale, L, orig, height - 1);
  }

  /** `floyd_steinberg`: dither the image in place. Every pixel becomes the
      grey pixel `(bw, bw, bw)` with `bw` the level the reference definition
      gives it from the image's original greyscale values. The order of the
      writes is pinned by the step methods: each `QuantizePixel` writes its
      own pixel and no other, and between two steps `ScannedUpTo` fixes the
      whole image. The ghost `order` lists the pixels in the order the loops
      hand them to those steps. */
  method FloydSteinberg(pixels: array2<Rgb>, greyscale: Rgb -> int) returns (ghost order: seq<(nat, nat)>)
    requires pixels.Length0 >= 1 && pixels.Length1 >= 1
    requires pixels.Length1 >= 2 ==> pixels.Length0 >= 2
    modifies pixels
    ensures forall x, y :: 0 <= x < pixels.Length0 && 0 <= y < pixels.Length1 ==>
      pixels[x, y] == Grey3(Bw(old(Lumas(pixels, greyscale)), pixels.Length0, y, x))
    ensures order == RasterOrder(pixels.Length0, pixels.Length1)
  {
    var width, height := pixels.Length0, pixels.Length1;
    ghost var L := Lumas(pixels, greyscale);
    ghost var orig := Snapshot(pixels);
    var correction := new int[width](_ => 0);
    var correctionNext := new int[width](_ => 0);
    order := [];
    var i := 0;
    while i < height - 1
      invariant 0 <= i <= height - 1
      invariant fresh(correction) && fresh(correctionNext) && correction != correctionNext
      invariant correction.Length == width && correctionNext.Length == width
      invariant forall x :: 0 <= x < width ==> correction[x] == Above(L, width, i, x)
      invariant ScannedUpTo(pixels, greyscale, L, orig, i, 0)
      invariant order == RasterOrder(width, i)
    {
      ghost var row: seq<(nat, nat)>;
      row := DiffuseRow(pixels, greyscale, L, orig, i, correction, correctionNext);
      order := order + row;
      correction, correctionNext := correctionNext, correction;
      i := i + 1;
    }
    ghost var row: seq<(nat, nat)>;
    row := DiffuseLastRow(pixels, greyscale, L, orig, correction);
    order := order + row;
  }
}
