/** The LSB-embedding layer of stegano.py: writing one bit into the lowest
    bit of a channel, fitting the watermark's size inside the cover,
    centring it, clearing the border around it, and writing the
    watermark's bits one pixel at a time. */
module Stegano {
  import opened Pixels

  // ---------------------------------------------------------------------
  // Fitting the watermark inside the cover (size arithmetic only)
  // ---------------------------------------------------------------------

  /** `q` is `num / den` rounded down. */
  predicate IsFloorRatio(q: nat, num: nat, den: nat)
  {
    q * den <= num < (q + 1) * den
  }

  /** The size `constrain_max_size` resizes an `imgWidth` x `imgHeight` image
      to so that it fits in `width` x `height`: first try to scale to the full
      width; if the height then still exceeds the bound, scale to the full
      height; an image that already fits is kept as it is. */
  function ConstrainMaxSize(imgWidth: nat, imgHeight: nat, width: nat, height: nat): (size: (nat, nat))
    ensures size.0 <= width && size.1 <= height
    ensures size.0 <= imgWidth && size.1 <= imgHeight
    ensures imgWidth <= width && imgHeight <= height ==> size == (imgWidth, imgHeight)
    // a side that was scaled is the proportional value rounded down
    // the full width is tried first, and kept whenever the height then fits
    ensures imgWidth > width && (width * imgHeight) / imgWidth <= height ==>
      size == (width, (width * imgHeight) / imgWidth)
    ensures size != (imgWidth, imgHeight) ==>
      (size.0 == width && IsFloorRatio(size.1, width * imgHeight, imgWidth)) ||
      (size.1 == height && IsFloorRatio(size.0, height * imgWidth, imgHeight))
  {
    if imgWidth > width && (width * imgHeight) / imgWidth <= height then
      var h := (width * imgHeight) / imgWidth;
      ScaledSide(width, imgHeight, imgWidth);
      (width, h)
    else if imgHeight > height then
      var w := (height * imgWidth) / imgHeight;
      ScaledSide(height, imgWidth, imgHeight);
      ScaledFits(width, imgHeight, imgWidth, height);
      (w, height)
    else
      NoScaleNeeded(imgWidth, imgHeight, width, height);
      (imgWidth, imgHeight)
  }

  /** When neither scaling branch is taken, the image already fits: a width
      above the bound would have been scaled to a height within it. */
  lemma NoScaleNeeded(imgWidth: nat, imgHeight: nat, width: nat, height: nat)
    requires !(imgWidth > width && (width * imgHeight) / imgWidth <= height)
    requires imgHeight <= height
    ensures imgWidth <= width
  {
    if imgWidth > width {
      ScaledSide(width, imgHeight, imgWidth);
    }
  }

  /** Division rounds down. */
  lemma FloorDivision(num: nat, den: nat)
    requires den > 0
    ensures 0 <= num / den
    ensures IsFloorRatio(num / den, num, den)
  {
  }

  /** Multiplying by a non-negative factor keeps `<=`. */
  lemma MulMonotone(a: int, b: int, c: nat)
    requires a <= b
    ensures a * c <= b * c
  {
  }

  /** Scaling side `other` by `bound / side` with `bound < side` rounds down and shrinks it. */
  lemma ScaledSide(bound: nat, other: nat, side: nat)
    requires bound < side
    ensures 0 <= (bound * other) / side <= other
    ensures IsFloorRatio((bound * other) / side, bound * other, side)
  {
    assert 0 <= bound * other by { MulMonotone(0, bound, other); }
    FloorDivision(bound * other, side);
    var q := (bound * other) / side;
    if q > other {
      MulMonotone(other + 1, q, side);
      MulMonotone(bound, side, other);
      assert false;
    }
  }

  /** Scaling to the full `height` keeps the width within `bound`, both when
      the width already fit and when scaling to the full width was refused
      because it left the height above `height`. */
  lemma ScaledFits(bound: nat, imgHeight: nat, imgWidth: nat, height: nat)
    requires height < imgHeight
    requires bound < imgWidth ==> (bound * imgHeight) / imgWidth > height
    ensures (height * imgWidth) / imgHeight <= bound
  {
    ScaledSide(height, imgWidth, imgHeight);
    if imgWidth <= bound {
      return;
    }
    var p := (height * imgWidth) / imgHeight;
    assert 0 <= bound * imgHeight by { MulMonotone(0, bound, imgHeight); }
    FloorDivision(bound * imgHeight, imgWidth);
    var q := (bound * imgHeight) / imgWidth;
    // (height + 1) * imgWidth <= q * imgWidth <= bound * imgHeight
    MulMonotone(height + 1, q, imgWidth);
    AddMul(height, 1, imgWidth);
    assert height * imgWidth + imgWidth <= bound * imgHeight;
    if p > bound {
      // (bound + 1) * imgHeight <= p * imgHeight <= height * imgWidth
      MulMonotone(bound + 1, p, imgHeight);
      AddMul(bound, 1, imgHeight);
      assert false;
    }
  }

  // ---------------------------------------------------------------------
  // The lowest bit of one channel
  // ---------------------------------------------------------------------

  /** Bitwise and of two non-negative integers, bit by bit from the lowest. */
  function BitAnd(a: nat, b: nat): (r: nat)
    ensures r <= a && r <= b
    ensures r % 2 == (if a % 2 == 1 && b % 2 == 1 then 1 else 0)
  {
    if a == 0 || b == 0 then 0
    else 2 * BitAnd(a / 2, b / 2) + (if a % 2 == 1 && b % 2 == 1 then 1 else 0)
  }

  /** Bitwise or of two non-negative integers, bit by bit from the lowest. */
  function BitOr(a: nat, b: nat): (r: nat)
    ensures a <= r <= a + b
    ensures b <= r
    ensures r % 2 == (if a % 2 == 1 || b % 2 == 1 then 1 else 0)
  {
    if a == 0 then b
    else if b == 0 then a
    else 2 * BitOr(a / 2, b / 2) + (if a % 2 == 1 || b % 2 == 1 then 1 else 0)
  }

  /** `2^k`. */
  function Pow2(k: nat): (p: nat)
    ensures p >= 1
  {
    if k == 0 then 1 else 2 * Pow2(k - 1)
  }

  /** Masking with `k` low one-bits keeps any value below `2^k`. */
  lemma {:induction false} BitAndLowOnes(x: nat, k: nat)
    requires x < Pow2(k)
    ensures BitAnd(x, Pow2(k) - 1) == x
  {
    if x != 0 {
      BitAndLowOnes(x / 2, k - 1);
    }
  }

  /** `apply_lsb`: clear the lowest bit of `value` (`value & 254`) when
      `lsb` is 0, set it (`value | 1`) otherwise. The result has the
      requested lowest bit and the same seven upper bits as `value`. */
  function ApplyLsb(value: Byte, lsb: int): (r: Byte)
    ensures r % 2 == (if lsb == 0 then 0 else 1)
    ensures r / 2 == value / 2
  {
    if lsb == 0 then
      BitAndLowOnes(value / 2, 7);
      BitAnd(value, 254)
    else
      assert BitOr(value / 2, 0) == value / 2;
      BitOr(value, 1)
  }

  /** Only the last bit written survives; in particular writing the same bit twice is writing it once. */
  lemma LastWriteWins(value: Byte, first: int, second: int)
    ensures ApplyLsb(ApplyLsb(value, first), second) == ApplyLsb(value, second)
  {
    var once := ApplyLsb(value, first);
    var twice := ApplyLsb(once, second);
    var direct := ApplyLsb(value, second);
    assert twice == 2 * (twice / 2) + twice % 2;
    assert direct == 2 * (direct / 2) + direct % 2;
  }

  /** The entries of `pixel_lsb_mappers`: write `lsb` into channel `c` of `p`. */
  function MapPixel(c: Channel, p: Rgb, lsb: int): (q: Rgb)
    ensures Component(q, c) == ApplyLsb(Component(p, c), lsb)
    ensures forall d :: d != c ==> Component(q, d) == Component(p, d)
  {
    match c
    case R => Rgb(ApplyLsb(p.r, lsb), p.g, p.b)
    case G => Rgb(p.r, ApplyLsb(p.g, lsb), p.b)
    case B => Rgb(p.r, p.g, ApplyLsb(p.b, lsb))
  }

  /** Mapping the same channel twice keeps only the second bit. */
  lemma MapPixelLastWriteWins(c: Channel, p: Rgb, first: int, second: int)
    ensures MapPixel(c, MapPixel(c, p, first), second) == MapPixel(c, p, second)
  {
    LastWriteWins(Component(p, c), first, second);
  }

  // ---------------------------------------------------------------------
  // Placing the watermark and clearing the border around it
  // ---------------------------------------------------------------------

  /** `(coverSize - size) // 2`: the margin before a span of `size` centred in `coverSize`. */
  function CentredOffset(coverSize: nat, size: nat): (offset: int)
    ensures size <= coverSize ==> 0 <= offset && offset + size <= coverSize
    // the margin after the span is the margin before it, or one more
    ensures var after := coverSize - (offset + size); after == offset || after == offset + 1
  {
    (coverSize - size) / 2
  }

  /** The number of integers in `range(lo, hi)`. */
  function Span(lo: int, hi: int): nat
  {
    if lo < hi then hi - lo else 0
  }

  /** The pixels visited by `for x in range(x0, x1): for y in range(y0, y1)`. */
  datatype Rect = Rect(x0: int, x1: int, y0: int, y1: int) {
    predicate Contains(x: int, y: int)
    {
      x0 <= x < x1 && y0 <= y < y1
    }

    function Area(): nat
    {
      Span(x0, x1) * Span(y0, y1)
    }
  }

  /** Where a `width` x `height` watermark lands in a `coverWidth` x `coverHeight` cover. */
  function Window(coverWidth: nat, coverHeight: nat, width: nat, height: nat): (window: Rect)
    ensures width <= coverWidth && height <= coverHeight ==>
      0 <= window.x0 && window.x1 <= coverWidth && 0 <= window.y0 && window.y1 <= coverHeight &&
      window.Area() == width * height
  {
    var xOffset := CentredOffset(coverWidth, width);
    var yOffset := CentredOffset(coverHeight, height);
    Rect(xOffset, width + xOffset, yOffset, height + yOffset)
  }

  /** The four strips the constructor of `SteganoCallback` clears, in its order:
      the columns left of the window and right of it over the full height,
      then the window's columns above it and below it. */
  function BorderStrips(coverWidth: nat, coverHeight: nat, width: nat, height: nat): (strips: seq<Rect>)
    ensures |strips| == 4
    // the first two span the full height, the last two the window's columns
    ensures strips[0].y0 == strips[1].y0 == 0 && strips[0].y1 == strips[1].y1 == coverHeight
    ensures var window := Window(coverWidth, coverHeight, width, height);
      strips[0].x1 == strips[2].x0 == strips[3].x0 == window.x0 &&
      strips[1].x0 == strips[2].x1 == strips[3].x1 == window.x1 &&
      strips[2].y1 == window.y0 && strips[3].y0 == window.y1
  {
    var xOffset := CentredOffset(coverWidth, width);
    var yOffset := CentredOffset(coverHeight, height);
    [ Rect(0, xOffset, 0, coverHeight),
      Rect(width + xOffset, coverWidth, 0, coverHeight),
      Rect(xOffset, width + xOffset, 0, yOffset),
      Rect(xOffset, width + xOffset, height + yOffset, coverHeight) ]
  }

  /** The four strips lie in the cover, do not overlap, and together cover
      exactly the cover pixels outside the window, `W*H - w*h` of them. */
  lemma BorderPartition(coverWidth: nat, coverHeight: nat, width: nat, height: nat)
    requires width <= coverWidth && height <= coverHeight
    ensures var strips := BorderStrips(coverWidth, coverHeight, width, height);
      |strips| == 4 &&
      (forall k, x, y :: 0 <= k < 4 && strips[k].Contains(x, y) ==>
         0 <= x < coverWidth && 0 <= y < coverHeight) &&
      (forall k1, k2, x, y :: 0 <= k1 < k2 < 4 && strips[k1].Contains(x, y) ==> !strips[k2].Contains(x, y)) &&
      (forall x, y :: 0 <= x < coverWidth && 0 <= y < coverHeight ==>
         (!Window(coverWidth, coverHeight, width, height).Contains(x, y) <==>
          exists k :: 0 <= k < 4 && strips[k].Contains(x, y))) &&
      strips[0].Area() + strips[1].Area() + strips[2].Area() + strips[3].Area()
        == coverWidth * coverHeight - width * height
  {
    var strips := BorderStrips(coverWidth, coverHeight, width, height);
    forall x, y | 0 <= x < coverWidth && 0 <= y < coverHeight
      ensures !Window(coverWidth, coverHeight, width, height).Contains(x, y) <==>
              exists k :: 0 <= k < 4 && strips[k].Contains(x, y)
    {
      BorderCovers(coverWidth, coverHeight, width, height, x, y);
    }
    BorderArea(coverWidth, coverHeight, width, height);
  }

  /** A cover pixel outside the window lies in one of the strips, and one inside it in none. */
  lemma BorderCovers(coverWidth: nat, coverHeight: nat, width: nat, height: nat, x: int, y: int)
    requires width <= coverWidth && height <= coverHeight
    requires 0 <= x < coverWidth && 0 <= y < coverHeight
    ensures var strips := BorderStrips(coverWidth, coverHeight, width, height);
      !Window(coverWidth, coverHeight, width, height).Contains(x, y) <==>
      exists k :: 0 <= k < 4 && strips[k].Contains(x, y)
  {
    var strips := BorderStrips(coverWidth, coverHeight, width, height);
    var window := Window(coverWidth, coverHeight, width, height);
    if x < window.x0 {
      assert strips[0].Contains(x, y);
    } else if x >= window.x1 {
      assert strips[1].Contains(x, y);
    } else if y < window.y0 {
      assert strips[2].Contains(x, y);
    } else if y >= window.y1 {
      assert strips[3].Contains(x, y);
    }
  }

  /** The strips hold `W*H - w*h` pixels in all. */
  lemma BorderArea(coverWidth: nat, coverHeight: nat, width: nat, height: nat)
    requires width <= coverWidth && height <= coverHeight
    ensures var strips := BorderStrips(coverWidth, coverHeight, width, height);
      strips[0].Area() + strips[1].Area() + strips[2].Area() + strips[3].Area()
        == coverWidth * coverHeight - width * height
  {
    var strips := BorderStrips(coverWidth, coverHeight, width, height);
    var left: nat := CentredOffset(coverWidth, width);
    var above: nat := CentredOffset(coverHeight, height);
    var right: nat := coverWidth - width - left;
    var below: nat := coverHeight - height - above;
    assert Span(0, left) == left && Span(width + left, coverWidth) == right;
    assert Span(0, above) == above && Span(height + above, coverHeight) == below;
    assert Span(0, coverHeight) == coverHeight && Span(left, width + left) == width;
    // the two side strips span the full height, the other two the window's width
    AddMul(left, right, coverHeight);
    MulAdd(width, above, below);
    AddMul(coverWidth - width, width, coverHeight);
    MulAdd(width, coverHeight - height, height);
  }

  /** `(a + b) * c == a * c + b * c`. */
  lemma AddMul(a: int, b: int, c: int)
    ensures (a + b) * c == a * c + b * c
  {
  }

  /** `a * (b + c) == a * b + a * c`. */
  lemma MulAdd(a: int, b: int, c: int)
    ensures a * (b + c) == a * b + a * c
  {
  }

  /** One of the four border loops: write LSB 0 into `channel` of every pixel of `strip`. */
  method ClearStrip(pixels: array2<Rgb>, channel: Channel, strip: Rect) returns (ghost visited: nat)
    requires 0 <= strip.x0 <= strip.x1 <= pixels.Length0
    requires 0 <= strip.y0 <= strip.y1 <= pixels.Length1
    modifies pixels
    ensures forall x, y :: 0 <= x < pixels.Length0 && 0 <= y < pixels.Length1 ==>
      pixels[x, y] == if strip.Contains(x, y) then MapPixel(channel, old(pixels[x, y]), 0) else old(pixels[x, y])
    ensures visited == strip.Area()
  {
    var rows := strip.y1 - strip.y0;
    visited := 0;
    var x := strip.x0;
    while x < strip.x1
      invariant strip.x0 <= x <= strip.x1
      invariant forall px, py :: 0 <= px < pixels.Length0 && 0 <= py < pixels.Length1 ==>
        pixels[px, py] == if strip.x0 <= px < x && strip.y0 <= py < strip.y1
                          then MapPixel(channel, old(pixels[px, py]), 0) else old(pixels[px, py])
      invariant visited == (x - strip.x0) * rows
    {
      var y := strip.y0;
      while y < strip.y1
        invariant strip.y0 <= y <= strip.y1
        invariant forall px, py :: 0 <= px < pixels.Length0 && 0 <= py < pixels.Length1 ==>
          pixels[px, py] == if (strip.x0 <= px < x && strip.y0 <= py < strip.y1) || (px == x && strip.y0 <= py < y)
                            then MapPixel(channel, old(pixels[px, py]), 0) else old(pixels[px, py])
        invariant visited == (x - strip.x0) * rows + (y - strip.y0)
      {
        pixels[x, y] := MapPixel(channel, pixels[x, y], 0);
        visited := visited + 1;
        y := y + 1;
      }
      assert visited == (x + 1 - strip.x0) * rows;
      x := x + 1;
    }
  }

  /** The embedding callback: it holds the cover's pixels, the watermark's
      offset in the cover and the channel that carries the bits. */
  class SteganoCallback {
    const pixels: array2<Rgb>
    const xOffset: int
    const yOffset: int
    const channel: Channel
    /** Pixels visited so far: the count the progress bar shows. */
    ghost var visits: nat

    /** Centre a `width` x `height` watermark in the cover `img` and write
        LSB 0 into `channel` of every cover pixel outside it. */
    constructor (img: array2<Rgb>, width: nat, height: nat, channel: Channel)
      requires width <= img.Length0 && height <= img.Length1
      modifies img
      ensures pixels == img && this.channel == channel
      ensures xOffset == CentredOffset(img.Length0, width) && yOffset == CentredOffset(img.Length1, height)
      ensures forall x, y :: 0 <= x < img.Length0 && 0 <= y < img.Length1 ==>
        img[x, y] == if Window(img.Length0, img.Length1, width, height).Contains(x, y)
                     then old(img[x, y]) else MapPixel(channel, old(img[x, y]), 0)
      ensures visits == img.Length0 * img.Length1 - width * height
    {
      pixels := img;
      xOffset := CentredOffset(img.Length0, width);
      yOffset := CentredOffset(img.Length1, height);
      this.channel := channel;
      var strips := BorderStrips(img.Length0, img.Length1, width, height);
      label start:
      ghost var left := ClearStrip(img, channel, strips[0]);
      label afterLeft:
      ghost var right := ClearStrip(img, channel, strips[1]);
      label afterRight:
      ghost var above := ClearStrip(img, channel, strips[2]);
      label afterAbove:
      ghost var below := ClearStrip(img, channel, strips[3]);
      BorderPartition(img.Length0, img.Length1, width, height);
      visits := left + right + above + below;
      forall x, y | 0 <= x < img.Length0 && 0 <= y < img.Length1
        ensures img[x, y] == if Window(img.Length0, img.Length1, width, height).Contains(x, y)
                             then old(img[x, y]) else MapPixel(channel, old(img[x, y]), 0)
      {
        // the strips are disjoint: each pixel is rewritten by at most one of them
        var p := old@start(img[x, y]);
        assert old@afterLeft(img[x, y]) == if strips[0].Contains(x, y) then MapPixel(channel, p, 0) else p;
      }
    }

    /** The callback's `__call__`: write bit `v` at watermark position
        `(x, y)`, that is at cover pixel `(x + xOffset, y + yOffset)`. */
    method Emit(x: int, y: int, v: int)
      requires 0 <= x + xOffset < pixels.Length0 && 0 <= y + yOffset < pixels.Length1
      modifies pixels, this`visits
      ensures pixels[x + xOffset, y + yOffset] == MapPixel(channel, old(pixels[x + xOffset, y + yOffset]), v)
      ensures forall px, py ::
        0 <= px < pixels.Length0 && 0 <= py < pixels.Length1 && (px != x + xOffset || py != y + yOffset) ==>
        pixels[px, py] == old(pixels[px, py])
      ensures visits == old(visits) + 1
    {
      var cx := x + xOffset;
      var cy := y + yOffset;
      pixels[cx, cy] := MapPixel(channel, pixels[cx, cy], v);
      visits := visits + 1;
    }
  }
}
