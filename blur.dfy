/**
 * `fast_blur` (crates/src/blur/gaussian.rs): a 3x3 mean filter applied in
 * place to a rectangle of a row-major buffer of packed pixels. Each pixel
 * of the rectangle, row by row and left to right, is overwritten with the
 * truncated mean of the red, green and blue bytes of its neighbours as the
 * buffer holds them at that moment, with alpha forced to 0xFF.
 */
module Blur {
  import opened Colors

  /** A packed pixel (Rust `u32`): red in the low byte, then green, blue and alpha. */
  newtype u32 = x: int | 0 <= x < 0x1_0000_0000

  /** `p & 0xFF`. */
  function Red(p: u32): nat { p as nat % 0x100 }

  /** `(p >> 8) & 0xFF`. */
  function Green(p: u32): nat { p as nat / 0x100 % 0x100 }

  /** `(p >> 16) & 0xFF`. */
  function Blue(p: u32): nat { p as nat / 0x1_0000 % 0x100 }

  /** `p >> 24`. */
  function Alpha(p: u32): nat { p as nat / 0x100_0000 }

  /** Channel `ch` of a pixel: 0 red, 1 green, 2 blue. */
  function Channel(p: u32, ch: nat): nat
    requires ch < 3
  {
    if ch == 0 then Red(p) else if ch == 1 then Green(p) else Blue(p)
  }

  /** `r | (g << 8) | (b << 16) | 0xFF000000` for three bytes. */
  function Pack(r: nat, g: nat, b: nat): (p: u32)
    requires r < 0x100 && g < 0x100 && b < 0x100
    ensures Red(p) == r && Green(p) == g && Blue(p) == b && Alpha(p) == 0xFF
  {
    (r + g * 0x100 + b * 0x1_0000 + 0xFF00_0000) as u32
  }

  /** A kernel offset, -1, 0 or 1 (`-radius..=radius` with radius 1). */
  predicate Offset(k: int)
  {
    -1 <= k <= 1
  }

  /**
   * The test deciding whether the neighbour at offset (kx, ky) of (x, y)
   * is read: column inside `0..width`, row not above the top. There is no
   * test against the bottom of the image.
   */
  predicate Reads(x: nat, y: nat, width: nat, kx: int, ky: int)
  {
    var nx, ny := x + kx, y + ky;
    nx >= 0 && ny >= 0 && nx < width && ny >= 0
  }

  /** The neighbour at offset (kx, ky) of (x, y), read from index `ny * width + nx`. */
  function Neighbour(buf: seq<u32>, x: nat, y: nat, width: nat, kx: int, ky: int): u32
    requires Offset(ky) && Reads(x, y, width, kx, ky) && (y + 2) * width <= |buf|
  {
    NeighbourInBuffer(x, y, width, kx, ky, |buf|);
    buf[(y + ky) * width + (x + kx)]
  }

  /** Rows up to `y + 1` fit a buffer of `y + 2` rows. */
  lemma NeighbourInBuffer(x: nat, y: nat, width: nat, kx: int, ky: int, len: nat)
    requires Offset(ky) && Reads(x, y, width, kx, ky) && (y + 2) * width <= len
    ensures 0 <= (y + ky) * width + (x + kx) < len
  {
    var ny: nat := y + ky;
    MulLe(ny + 1, y + 2, width);
    MulSucc(width, ny);
  }

  /** `sum_r`, `sum_g`, `sum_b` and `count`. */
  datatype Sums = Sums(r: nat, g: nat, b: nat, count: nat)

  function SumOf(s: Sums, ch: nat): nat
    requires ch < 3
  {
    if ch == 0 then s.r else if ch == 1 then s.g else s.b
  }

  /** The sums once the first `n` offsets `kx` of kernel row `ky` are added to `acc`. */
  function RowSums(buf: seq<u32>, x: nat, y: nat, width: nat, ky: int, n: nat, acc: Sums): Sums
    requires Offset(ky) && n <= 3 && (y + 2) * width <= |buf|
  {
    if n == 0 then acc
    else
      var s, kx := RowSums(buf, x, y, width, ky, n - 1, acc), n - 2;
      if Reads(x, y, width, kx, ky) then
        var p := Neighbour(buf, x, y, width, kx, ky);
        Sums(s.r + Red(p), s.g + Green(p), s.b + Blue(p), s.count + 1)
      else s
  }

  /** The sums over the first `m` kernel rows around (x, y), from zero. */
  function Gather(buf: seq<u32>, x: nat, y: nat, width: nat, m: nat): Sums
    requires m <= 3 && (y + 2) * width <= |buf|
  {
    if m == 0 then Sums(0, 0, 0, 0)
    else RowSums(buf, x, y, width, m - 2, 3, Gather(buf, x, y, width, m - 1))
  }

  /** How many of the first `n` offsets of kernel row `ky` are read. */
  function RowCount(x: nat, y: nat, width: nat, ky: int, n: nat): nat
  {
    if n == 0 then 0 else RowCount(x, y, width, ky, n - 1) + if Reads(x, y, width, n - 2, ky) then 1 else 0
  }

  /** How many neighbours of the first `m` kernel rows are read. */
  function ReadCount(x: nat, y: nat, width: nat, m: nat): nat
  {
    if m == 0 then 0 else ReadCount(x, y, width, m - 1) + RowCount(x, y, width, m - 2, 3)
  }

  /** The columns of the kernel inside the image: the pixel's own and those of its neighbours that exist. */
  function Columns(x: nat, width: nat): nat
  {
    (if x > 0 then 1 else 0) + 1 + (if x + 1 < width then 1 else 0)
  }

  /** The rows of the kernel that are read: the row above only if there is one, the row below always. */
  function Rows(y: nat): nat
  {
    if y > 0 then 3 else 2
  }

  /** A kernel row is read in the columns inside the image, or not at all above the top. */
  lemma RowCountShape(x: nat, y: nat, width: nat, ky: int)
    requires x < width && Offset(ky)
    ensures RowCount(x, y, width, ky, 3) == if y + ky >= 0 then Columns(x, width) else 0
  {
    assert RowCount(x, y, width, ky, 1) == if y + ky >= 0 && x > 0 then 1 else 0;
    assert RowCount(x, y, width, ky, 2) == if y + ky >= 0 then (if x > 0 then 1 else 0) + 1 else 0;
  }

  /**
   * Neighbours are read from every kernel row but the one above the top
   * and from the columns inside the image, with no wrap-around; so a
   * pixel inside the image reads between 2 and 9 of them and `count`
   * is never zero.
   */
  lemma CountShape(x: nat, y: nat, width: nat)
    requires x < width
    ensures ReadCount(x, y, width, 3) == Columns(x, width) * Rows(y)
    ensures 2 <= ReadCount(x, y, width, 3) <= 9
  {
    RowCountShape(x, y, width, -1);
    RowCountShape(x, y, width, 0);
    RowCountShape(x, y, width, 1);
    assert ReadCount(x, y, width, 1) == if y > 0 then Columns(x, width) else 0;
    assert ReadCount(x, y, width, 2) == ReadCount(x, y, width, 1) + Columns(x, width);
  }

  /**
   * At or past the right edge: one column to the right of the image the
   * kernel still reads its left column (so the source writes there, which
   * is the first pixel of the next row); two or more columns to the right,
   * or in an image of width zero, it reads nothing, and the mean divides
   * by a zero count.
   */
  lemma EdgeCount(x: nat, y: nat, width: nat)
    requires x >= width
    ensures ReadCount(x, y, width, 3) == if x == width && width > 0 then Rows(y) else 0
  {
    forall ky | Offset(ky)
      ensures RowCount(x, y, width, ky, 3) == if x == width && width > 0 && y + ky >= 0 then 1 else 0
    {
      assert RowCount(x, y, width, ky, 1) == if x == width && width > 0 && y + ky >= 0 then 1 else 0;
      assert RowCount(x, y, width, ky, 2) == RowCount(x, y, width, ky, 1);
    }
    assert ReadCount(x, y, width, 1) == RowCount(x, y, width, -1, 3);
    assert ReadCount(x, y, width, 2) == ReadCount(x, y, width, 1) + RowCount(x, y, width, 0, 3);
  }

  /** A kernel row adds to the count the number of its neighbours read, whatever the buffer holds. */
  lemma {:induction false} RowSumsCount(buf: seq<u32>, x: nat, y: nat, width: nat, ky: int, n: nat, acc: Sums)
    requires Offset(ky) && n <= 3 && (y + 2) * width <= |buf|
    ensures RowSums(buf, x, y, width, ky, n, acc).count == acc.count + RowCount(x, y, width, ky, n)
  {
    if n > 0 {
      RowSumsCount(buf, x, y, width, ky, n - 1, acc);
    }
  }

  /** The count accumulated is the number of neighbours read, whatever the buffer holds. */
  lemma {:induction false} GatherCount(buf: seq<u32>, x: nat, y: nat, width: nat, m: nat)
    requires m <= 3 && (y + 2) * width <= |buf|
    ensures Gather(buf, x, y, width, m).count == ReadCount(x, y, width, m)
  {
    if m > 0 {
      GatherCount(buf, x, y, width, m - 1);
      RowSumsCount(buf, x, y, width, m - 2, 3, Gather(buf, x, y, width, m - 1));
    }
  }

  /** Every neighbour read has channel `ch` between `lo` and `hi`. */
  ghost predicate NeighboursBetween(buf: seq<u32>, x: nat, y: nat, width: nat, ch: nat, lo: nat, hi: nat)
    requires (y + 2) * width <= |buf| && ch < 3
  {
    forall kx, ky :: Offset(ky) && Reads(x, y, width, kx, ky) ==> lo <= Channel(Neighbour(buf, x, y, width, kx, ky), ch) <= hi
  }

  /** The channel sum stays between `lo` and `hi` per pixel counted. */
  predicate SumsBetween(s: Sums, ch: nat, lo: nat, hi: nat)
    requires ch < 3
  {
    lo * s.count <= SumOf(s, ch) <= hi * s.count
  }

  lemma {:induction false} RowSumsBetween(buf: seq<u32>, x: nat, y: nat, width: nat, ky: int, n: nat, acc: Sums, ch: nat, lo: nat, hi: nat)
    requires Offset(ky) && n <= 3 && (y + 2) * width <= |buf| && ch < 3
    requires NeighboursBetween(buf, x, y, width, ch, lo, hi) && SumsBetween(acc, ch, lo, hi)
    ensures SumsBetween(RowSums(buf, x, y, width, ky, n, acc), ch, lo, hi)
  {
    if n > 0 {
      RowSumsBetween(buf, x, y, width, ky, n - 1, acc, ch, lo, hi);
      var s := RowSums(buf, x, y, width, ky, n - 1, acc);
      MulSucc(lo, s.count);
      MulSucc(hi, s.count);
    }
  }

  /** Every read neighbour's channel between `lo` and `hi` bounds the channel sum by `lo` and `hi` per pixel read. */
  lemma {:induction false} GatherBetween(buf: seq<u32>, x: nat, y: nat, width: nat, m: nat, ch: nat, lo: nat, hi: nat)
    requires m <= 3 && (y + 2) * width <= |buf| && ch < 3
    requires NeighboursBetween(buf, x, y, width, ch, lo, hi)
    ensures SumsBetween(Gather(buf, x, y, width, m), ch, lo, hi)
  {
    if m > 0 {
      GatherBetween(buf, x, y, width, m - 1, ch, lo, hi);
      RowSumsBetween(buf, x, y, width, m - 2, 3, Gather(buf, x, y, width, m - 1), ch, lo, hi);
    }
  }

  /** The channel sums are at most 255 per neighbour read. */
  lemma GatherBytes(buf: seq<u32>, x: nat, y: nat, width: nat, ch: nat)
    requires (y + 2) * width <= |buf| && ch < 3
    ensures SumsBetween(Gather(buf, x, y, width, 3), ch, 0, 0xFF)
  {
    GatherBetween(buf, x, y, width, 3, ch, 0, 0xFF);
  }

  /**
   * The pixel written at (x, y): per channel `(sum / count) as u32 & 0xFF`
   * over the neighbours read from `buf`, with alpha 0xFF.
   */
  function BlurAt(buf: seq<u32>, x: nat, y: nat, width: nat): u32
    requires x < width && (y + 2) * width <= |buf|
  {
    GatherCount(buf, x, y, width, 3);
    CountShape(x, y, width);
    Blend(Gather(buf, x, y, width, 3))
  }

  /** The pixel `fast_blur` writes for the given sums: each channel's truncated mean masked to 8 bits, alpha 0xFF. */
  function Blend(s: Sums): u32
    requires s.count > 0
  {
    Pack((s.r / s.count) % 0x100, (s.g / s.count) % 0x100, (s.b / s.count) % 0x100)
  }

  /** With every summed channel value a byte, the mask loses nothing: each channel is the exact truncated mean. */
  lemma BlendMean(s: Sums, ch: nat)
    requires s.count > 0 && ch < 3 && SumsBetween(s, ch, 0, 0xFF)
    ensures Alpha(Blend(s)) == 0xFF && Channel(Blend(s), ch) == SumOf(s, ch) / s.count
  {
    DivBetween(SumOf(s, ch), s.count, 0, 0xFF);
  }

  /**
   * A blurred pixel is opaque, and each of its channels is the exact
   * truncated mean of that channel over the neighbours read: the mask
   * with 0xFF never cuts anything.
   */
  lemma BlurAtMean(buf: seq<u32>, x: nat, y: nat, width: nat, ch: nat)
    requires x < width && (y + 2) * width <= |buf| && ch < 3
    ensures Alpha(BlurAt(buf, x, y, width)) == 0xFF
    ensures var s := Gather(buf, x, y, width, 3);
      s.count == ReadCount(x, y, width, 3) && s.count >= 2 && Channel(BlurAt(buf, x, y, width), ch) == SumOf(s, ch) / s.count
  {
    GatherCount(buf, x, y, width, 3);
    CountShape(x, y, width);
    GatherBytes(buf, x, y, width, ch);
    BlendMean(Gather(buf, x, y, width, 3), ch);
  }

  /** Each channel of a blurred pixel lies between the smallest and the largest value of that channel among the neighbours read. */
  lemma BlurAtBetween(buf: seq<u32>, x: nat, y: nat, width: nat, ch: nat, lo: nat, hi: nat)
    requires x < width && (y + 2) * width <= |buf| && ch < 3
    requires NeighboursBetween(buf, x, y, width, ch, lo, hi)
    ensures lo <= Channel(BlurAt(buf, x, y, width), ch) <= hi
  {
    var s := Gather(buf, x, y, width, 3);
    BlurAtMean(buf, x, y, width, ch);
    GatherBetween(buf, x, y, width, 3, ch, lo, hi);
    DivBetween(SumOf(s, ch), s.count, lo, hi);
  }

  /** `y * width + x` lies in a buffer of `y + 2` full rows when `x < width`. */
  lemma CellInBuffer(x: nat, y: nat, width: nat, len: nat)
    requires x < width && (y + 2) * width <= len
    ensures 0 <= y * width + x < len
  {
    MulLe(y + 1, y + 2, width);
    MulSucc(width, y);
  }

  /** The row and the column of the index of a pixel inside a row. */
  lemma CellIndex(x: nat, y: nat, width: nat)
    requires x < width
    ensures (y * width + x) / width == y && (y * width + x) % width == x
  {
    var q, r := (y * width + x) / width, (y * width + x) % width;
    assert q * width + r == y * width + x;
    assert (q - y) * width == x - r;
    if q > y {
      MulAtLeast(q - y, width);
    } else if q < y {
      MulAtLeast(y - q, width);
    }
  }

  lemma MulAtLeast(k: int, n: nat)
    requires k >= 1
    ensures k * n >= n
  {
    assert k * n == (k - 1) * n + n;
  }

  /** An index at or past row `y` has a row number of at least `y`. */
  lemma RowAtLeast(i: nat, y: nat, width: nat)
    requires width > 0 && y * width <= i
    ensures i / width >= y
  {
    var q := i / width;
    if q < y {
      MulLe(q + 1, y, width);
    }
  }

  /** The rectangle's rows `y0..y1` hold every pixel `fast_blur` writes. */
  predicate Fits(len: nat, x0: nat, y0: nat, x1: nat, y1: nat, width: nat)
  {
    y1 <= y0 || x1 <= x0 || (x1 <= width && (y1 + 1) * width <= len)
  }

  /** The pixel at index `i` lies in columns `x0..x1` and rows `y0..y1`. */
  predicate InRect(i: nat, x0: nat, y0: nat, x1: nat, y1: nat, width: nat)
  {
    width > 0 && y0 <= i / width < y1 && x0 <= i % width < x1
  }

  /**
   * What a pass over the buffer writes at pixel (x, y), given the buffer as
   * it stands when the pass reaches that pixel. The traversal below is
   * stated for any such function; `fast_blur` uses `Blurring`.
   */
  type PixelFn = (seq<u32>, nat, nat) -> u32

  /** The kernel of `fast_blur` for rows of `width` pixels, as a pixel function (0 where it cannot be read). */
  function Blurring(width: nat): PixelFn
  {
    (buf: seq<u32>, x: nat, y: nat) => BlurValue(buf, x, y, width)
  }

  /** `BlurAt` extended to every position of every buffer. */
  function BlurValue(buf: seq<u32>, x: nat, y: nat, width: nat): u32
  {
    if x < width && (y + 2) * width <= |buf| then BlurAt(buf, x, y, width) else 0
  }

  /** Where the kernel can be read, `Blurring` is `BlurAt`. */
  lemma BlurringAt(buf: seq<u32>, x: nat, y: nat, width: nat)
    requires x < width && (y + 2) * width <= |buf|
    ensures Blurring(width)(buf, x, y) == BlurAt(buf, x, y, width)
  {
  }

  /** The pixel (x, y) overwritten with the value `f` computes for it. */
  function Visit(f: PixelFn, buf: seq<u32>, x: nat, y: nat, width: nat): (out: seq<u32>)
    requires x < width && (y + 2) * width <= |buf|
    ensures |out| == |buf|
  {
    CellInBuffer(x, y, width, |buf|);
    buf[y * width + x := f(buf, x, y)]
  }

  /** The buffer once the pixels `x0..x` of row `y` have been visited in place, left to right. */
  function BlurRow(f: PixelFn, buf: seq<u32>, x0: nat, x: nat, y: nat, width: nat): (out: seq<u32>)
    requires x <= x0 || (x <= width && (y + 2) * width <= |buf|)
    ensures |out| == |buf|
    decreases x
  {
    if x <= x0 then buf
    else
      Visit(f, BlurRow(f, buf, x0, x - 1, y, width), x - 1, y, width)
  }

  /** One more pixel of the row. */
  lemma BlurRowStep(f: PixelFn, buf: seq<u32>, x0: nat, x: nat, y: nat, width: nat)
    requires x0 <= x < width && (y + 2) * width <= |buf|
    ensures BlurRow(f, buf, x0, x + 1, y, width) == Visit(f, BlurRow(f, buf, x0, x, y, width), x, y, width)
  {
  }

  /** The buffer once the rows `y0..y` of the rectangle have been visited in place, top to bottom. */
  function BlurRows(f: PixelFn, buf: seq<u32>, x0: nat, y0: nat, x1: nat, y: nat, width: nat): (out: seq<u32>)
    requires Fits(|buf|, x0, y0, x1, y, width)
    ensures |out| == |buf|
    decreases y
  {
    if y <= y0 then buf
    else
      MulLe(y, y + 1, width);
      BlurRow(f, BlurRows(f, buf, x0, y0, x1, y - 1, width), x0, x1, y - 1, width)
  }

  /** One more row of the rectangle. */
  lemma BlurRowsStep(f: PixelFn, buf: seq<u32>, x0: nat, y0: nat, x1: nat, y: nat, width: nat)
    requires y0 <= y && Fits(|buf|, x0, y0, x1, y + 1, width)
    ensures Fits(|buf|, x0, y0, x1, y, width)
    ensures BlurRows(f, buf, x0, y0, x1, y + 1, width) == BlurRow(f, BlurRows(f, buf, x0, y0, x1, y, width), x0, x1, y, width)
  {
    MulLe(y + 1, y + 2, width);
  }

  /** The buffer as the pass finds it when it reaches the pixel (x, y) of the rectangle. */
  function Before(f: PixelFn, buf: seq<u32>, x0: nat, y0: nat, x1: nat, y1: nat, x: nat, y: nat, width: nat): (out: seq<u32>)
    requires Fits(|buf|, x0, y0, x1, y1, width) && y0 <= y < y1 && x0 <= x < x1
    ensures |out| == |buf| && (y + 2) * width <= |buf|
  {
    MulLe(y + 2, y1 + 1, width);
    MulLe(y + 1, y + 2, width);
    BlurRow(f, BlurRows(f, buf, x0, y0, x1, y, width), x0, x, y, width)
  }

  /** Visiting (x, y) changes the pixel at `y * width + x` and nothing else. */
  lemma VisitAt(f: PixelFn, buf: seq<u32>, x: nat, y: nat, width: nat, i: nat)
    requires x < width && (y + 2) * width <= |buf| && i < |buf|
    ensures 0 <= y * width + x < |buf|
    ensures Visit(f, buf, x, y, width)[i] == if i == y * width + x then f(buf, x, y) else buf[i]
  {
    CellInBuffer(x, y, width, |buf|);
  }

  /** Visiting the pixels `x0..x` of row `y` leaves every other index alone. */
  lemma {:induction false} BlurRowFrame(f: PixelFn, buf: seq<u32>, x0: nat, x: nat, y: nat, width: nat, i: nat)
    requires x <= x0 || (x <= width && (y + 2) * width <= |buf|)
    requires i < |buf| && !(y * width + x0 <= i < y * width + x)
    ensures BlurRow(f, buf, x0, x, y, width)[i] == buf[i]
    decreases x
  {
    if x > x0 {
      BlurRowFrame(f, buf, x0, x - 1, y, width, i);
      BlurRowStep(f, buf, x0, x - 1, y, width);
      VisitAt(f, BlurRow(f, buf, x0, x - 1, y, width), x - 1, y, width, i);
    }
  }

  /** Pixels of the row further right than `x` leave the indices before `y * width + x` alone. */
  lemma {:induction false} BlurRowKeep(f: PixelFn, buf: seq<u32>, x0: nat, x: nat, x': nat, y: nat, width: nat, i: nat)
    requires x0 <= x <= x' <= width && (y + 2) * width <= |buf|
    requires i < |buf| && i < y * width + x
    ensures BlurRow(f, buf, x0, x', y, width)[i] == BlurRow(f, buf, x0, x, y, width)[i]
    decreases x'
  {
    if x' > x {
      BlurRowKeep(f, buf, x0, x, x' - 1, y, width, i);
      BlurRowStep(f, buf, x0, x' - 1, y, width);
      VisitAt(f, BlurRow(f, buf, x0, x' - 1, y, width), x' - 1, y, width, i);
    }
  }

  /** Visiting the rows `y0..y` of the rectangle leaves every index outside it alone. */
  lemma {:induction false} BlurRowsFrame(f: PixelFn, buf: seq<u32>, x0: nat, y0: nat, x1: nat, y: nat, width: nat, i: nat)
    requires Fits(|buf|, x0, y0, x1, y, width)
    requires i < |buf| && !InRect(i, x0, y0, x1, y, width)
    ensures BlurRows(f, buf, x0, y0, x1, y, width)[i] == buf[i]
    decreases y
  {
    if y > y0 {
      BlurRowsStep(f, buf, x0, y0, x1, y - 1, width);
      BlurRowsFrame(f, buf, x0, y0, x1, y - 1, width, i);
      if x0 < x1 {
        var c := i - (y - 1) * width;
        if x0 <= c < x1 {
          CellIndex(c, y - 1, width);
        }
        MulLe(y + 1, y + 2, width);
        BlurRowFrame(f, BlurRows(f, buf, x0, y0, x1, y - 1, width), x0, x1, y - 1, width, i);
      }
    }
  }

  /** Rows of the rectangle from `y` on leave the indices before row `y` alone. */
  lemma {:induction false} BlurRowsKeep(f: PixelFn, buf: seq<u32>, x0: nat, y0: nat, x1: nat, y: nat, y': nat, width: nat, i: nat)
    requires y0 <= y <= y' && Fits(|buf|, x0, y0, x1, y', width)
    requires i < |buf| && i < y * width
    ensures Fits(|buf|, x0, y0, x1, y, width)
    ensures BlurRows(f, buf, x0, y0, x1, y', width)[i] == BlurRows(f, buf, x0, y0, x1, y, width)[i]
    decreases y'
  {
    MulLe(y + 1, y' + 1, width);
    if y' > y {
      BlurRowsKeep(f, buf, x0, y0, x1, y, y' - 1, width, i);
      BlurRowsStep(f, buf, x0, y0, x1, y' - 1, width);
      if x0 < x1 {
        MulLe(y, y' - 1, width);
        MulLe(y' + 1, y' + 2, width);
        BlurRowFrame(f, BlurRows(f, buf, x0, y0, x1, y' - 1, width), x0, x1, y' - 1, width, i);
      }
    }
  }

  /** The pixel (x, y) comes before the start of row `y + 1`. */
  lemma NextRow(x: nat, y: nat, width: nat)
    requires x < width
    ensures y * width + x < (y + 1) * width
  {
    MulSucc(width, y);
  }

  /** A pixel of the row keeps the value `f` computed for it on reaching it, through to the end of the row. */
  lemma RowCell(f: PixelFn, buf: seq<u32>, x0: nat, x: nat, x1: nat, y: nat, width: nat)
    requires x0 <= x < x1 <= width && (y + 2) * width <= |buf|
    ensures 0 <= y * width + x < |buf|
    ensures BlurRow(f, buf, x0, x1, y, width)[y * width + x] == f(BlurRow(f, buf, x0, x, y, width), x, y)
  {
    CellInBuffer(x, y, width, |buf|);
    BlurRowStep(f, buf, x0, x, y, width);
    VisitAt(f, BlurRow(f, buf, x0, x, y, width), x, y, width, y * width + x);
    BlurRowKeep(f, buf, x0, x + 1, x1, y, width, y * width + x);
  }

  /**
   * Every pixel of the rectangle ends up holding the value `f` computes
   * from the buffer as the pass found it on reaching that pixel: later
   * pixels never overwrite it.
   */
  lemma BlurCell(f: PixelFn, buf: seq<u32>, x0: nat, y0: nat, x1: nat, y1: nat, width: nat, x: nat, y: nat)
    requires Fits(|buf|, x0, y0, x1, y1, width) && y0 <= y < y1 && x0 <= x < x1
    ensures x < width && 0 <= y * width + x < |buf|
    ensures BlurRows(f, buf, x0, y0, x1, y1, width)[y * width + x] == f(Before(f, buf, x0, y0, x1, y1, x, y, width), x, y)
  {
    var before := Before(f, buf, x0, y0, x1, y1, x, y, width);
    RowCell(f, BlurRows(f, buf, x0, y0, x1, y, width), x0, x, x1, y, width);
    NextRow(x, y, width);
    BlurRowsStep(f, buf, x0, y0, x1, y, width);
    BlurRowsKeep(f, buf, x0, y0, x1, y + 1, y1, width, y * width + x);
  }

  /**
   * On reaching (x, y), the pass finds the pixels of the rectangle before
   * it in row-major order (the rows above, and the pixels to its left)
   * already holding their final values, and every other pixel as it was;
   * so the neighbours above and to the left that `fast_blur` reads are
   * blurred ones.
   */
  lemma BlurSeen(f: PixelFn, buf: seq<u32>, x0: nat, y0: nat, x1: nat, y1: nat, width: nat, x: nat, y: nat, j: nat)
    requires Fits(|buf|, x0, y0, x1, y1, width) && y0 <= y < y1 && x0 <= x < x1 && j < |buf|
    ensures Before(f, buf, x0, y0, x1, y1, x, y, width)[j] ==
      if InRect(j, x0, y0, x1, y1, width) && j < y * width + x then BlurRows(f, buf, x0, y0, x1, y1, width)[j] else buf[j]
  {
    if j < y * width + x {
      SeenDone(f, buf, x0, y0, x1, y1, width, x, y, j);
      if !InRect(j, x0, y0, x1, y1, width) {
        BlurRowsFrame(f, buf, x0, y0, x1, y1, width, j);
      }
    } else {
      SeenPending(f, buf, x0, y0, x1, y1, width, x, y, j);
    }
  }

  /** A pixel before (x, y) in row-major order already holds its final value. */
  lemma SeenDone(f: PixelFn, buf: seq<u32>, x0: nat, y0: nat, x1: nat, y1: nat, width: nat, x: nat, y: nat, j: nat)
    requires Fits(|buf|, x0, y0, x1, y1, width) && y0 <= y < y1 && x0 <= x < x1 && j < y * width + x
    ensures j < |buf|
    ensures Before(f, buf, x0, y0, x1, y1, x, y, width)[j] == BlurRows(f, buf, x0, y0, x1, y1, width)[j]
  {
    MulLe(y + 2, y1 + 1, width);
    MulSucc(width, y);
    RowDone(f, buf, x0, y0, x1, y, width, x, j);
    BlurRowsKeep(f, buf, x0, y0, x1, y + 1, y1, width, j);
  }

  /** Finishing row `y` leaves the pixels before (x, y) as they were on reaching it. */
  lemma RowDone(f: PixelFn, buf: seq<u32>, x0: nat, y0: nat, x1: nat, y: nat, width: nat, x: nat, j: nat)
    requires y0 <= y && x0 <= x < x1 && Fits(|buf|, x0, y0, x1, y + 1, width) && j < y * width + x
    ensures Fits(|buf|, x0, y0, x1, y, width) && (y + 2) * width <= |buf| && j < |buf|
    ensures BlurRow(f, BlurRows(f, buf, x0, y0, x1, y, width), x0, x, y, width)[j] == BlurRows(f, buf, x0, y0, x1, y + 1, width)[j]
  {
    MulLe(y + 1, y + 2, width);
    MulSucc(width, y);
    BlurRowKeep(f, BlurRows(f, buf, x0, y0, x1, y, width), x0, x, x1, y, width, j);
    BlurRowsStep(f, buf, x0, y0, x1, y, width);
  }

  /** A pixel at or after (x, y) in row-major order is still as the pass found it. */
  lemma SeenPending(f: PixelFn, buf: seq<u32>, x0: nat, y0: nat, x1: nat, y1: nat, width: nat, x: nat, y: nat, j: nat)
    requires Fits(|buf|, x0, y0, x1, y1, width) && y0 <= y < y1 && x0 <= x < x1 && y * width + x <= j < |buf|
    ensures Before(f, buf, x0, y0, x1, y1, x, y, width)[j] == buf[j]
  {
    MulLe(y + 2, y1 + 1, width);
    MulLe(y + 1, y + 2, width);
    var rows := BlurRows(f, buf, x0, y0, x1, y, width);
    assert Before(f, buf, x0, y0, x1, y1, x, y, width) == BlurRow(f, rows, x0, x, y, width);
    BlurRowFrame(f, rows, x0, x, y, width, j);
    RowAtLeast(j, y, width);
    BlurRowsFrame(f, buf, x0, y0, x1, y, width, j);
  }

  /** Every pixel of the rectangle `fast_blur` blurs ends up opaque. */
  lemma BlurredOpaque(buf: seq<u32>, x0: nat, y0: nat, x1: nat, y1: nat, width: nat, i: nat)
    requires Fits(|buf|, x0, y0, x1, y1, width) && i < |buf| && InRect(i, x0, y0, x1, y1, width)
    ensures Alpha(BlurRows(Blurring(width), buf, x0, y0, x1, y1, width)[i]) == 0xFF
  {
    var x, y := i % width, i / width;
    assert i == y * width + x;
    BlurCell(Blurring(width), buf, x0, y0, x1, y1, width, x, y);
    BlurAtMean(Before(Blurring(width), buf, x0, y0, x1, y1, x, y, width), x, y, width, 0);
  }

  /**
   * `fast_blur(buffer, x0, y0, x1, y1, width)`. The source checks the
   * left, top and right edges but not the bottom one, so reading the row
   * below the last one of the rectangle needs the buffer to hold row
   * `y1` too: that is the precondition.
   */
  method FastBlur(buffer: array<u32>, x0: nat, y0: nat, x1: nat, y1: nat, width: nat)
    requires Fits(buffer.Length, x0, y0, x1, y1, width)
    modifies buffer
    ensures buffer[..] == BlurRows(Blurring(width), old(buffer[..]), x0, y0, x1, y1, width)
  {
    ghost var original := buffer[..];
    var y := y0;
    while y < y1
      invariant y == y0 || y0 <= y <= y1
      invariant Fits(buffer.Length, x0, y0, x1, y, width)
      invariant buffer[..] == BlurRows(Blurring(width), original, x0, y0, x1, y, width)
    {
      if x0 < x1 {
        MulLe(y + 2, y1 + 1, width);
      }
      BlurRowInPlace(buffer, x0, x1, y, width);
      y := y + 1;
    }
  }

  /** The inner loop of `fast_blur`: the pixels `x0..x1` of row `y`, left to right. */
  method BlurRowInPlace(buffer: array<u32>, x0: nat, x1: nat, y: nat, width: nat)
    requires x1 <= x0 || (x1 <= width && (y + 2) * width <= buffer.Length)
    modifies buffer
    ensures buffer[..] == BlurRow(Blurring(width), old(buffer[..]), x0, x1, y, width)
  {
    ghost var row := buffer[..];
    var x := x0;
    while x < x1
      invariant x == x0 || x0 <= x <= x1
      invariant buffer[..] == BlurRow(Blurring(width), row, x0, x, y, width)
    {
      BlurPixelInPlace(buffer, x, y, width);
      BlurRowStep(Blurring(width), row, x0, x, y, width);
      x := x + 1;
    }
  }

  /** The body of the two outer loops of `fast_blur`: pixel (x, y) overwritten with its blurred value. */
  method BlurPixelInPlace(buffer: array<u32>, x: nat, y: nat, width: nat)
    requires x < width && (y + 2) * width <= buffer.Length
    modifies buffer
    ensures buffer[..] == Visit(Blurring(width), old(buffer[..]), x, y, width)
  {
    var p := BlurPixel(buffer, x, y, width);
    BlurringAt(buffer[..], x, y, width);
    CellInBuffer(x, y, width, buffer.Length);
    buffer[y * width + x] := p;
  }

  /**
   * The value the body of the two outer loops of `fast_blur` computes: the truncated means
   * of the sums over the kernel, packed with alpha 0xFF.
   */
  method BlurPixel(buffer: array<u32>, x: nat, y: nat, width: nat) returns (p: u32)
    requires x < width && (y + 2) * width <= buffer.Length
    ensures p == BlurAt(buffer[..], x, y, width)
  {
    var sums := KernelSums(buffer, x, y, width);
    GatherCount(buffer[..], x, y, width, 3);
    CountShape(x, y, width);
    var r, g, b := (sums.r / sums.count) % 0x100, (sums.g / sums.count) % 0x100, (sums.b / sums.count) % 0x100;
    p := Pack(r, g, b);
  }

  /** The two kernel loops of `fast_blur`: the channel sums and the count of the neighbours read. */
  method KernelSums(buffer: array<u32>, x: nat, y: nat, width: nat) returns (sums: Sums)
    requires (y + 2) * width <= buffer.Length
    ensures sums == Gather(buffer[..], x, y, width, 3)
  {
    sums := Sums(0, 0, 0, 0);
    for ky := -1 to 2
      invariant sums == Gather(buffer[..], x, y, width, ky + 1)
    {
      ghost var before := sums;
      for kx := -1 to 2
        invariant sums == RowSums(buffer[..], x, y, width, ky, kx + 1, before)
      {
        var nx, ny := x + kx, y + ky;
        if nx >= 0 && ny >= 0 && nx < width && ny >= 0 {
          NeighbourInBuffer(x, y, width, kx, ky, buffer.Length);
          var pixel := buffer[ny * width + nx];
          sums := Sums(sums.r + Red(pixel), sums.g + Green(pixel), sums.b + Blue(pixel), sums.count + 1);
        }
      }
    }
  }
}
