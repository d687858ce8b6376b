/**
 * RasterLayout: the dimensions and the body `pixelsToImage` derives for N intensities.
 * Width is ceil(sqrt N) and height ceil(N / width), both in exact integer arithmetic;
 * the body is width*height cells in row-major order, cell i holding intensity i clamped
 * to [0, 255] while i < N and the padding value 0 after that.
 */
module RasterLayout {
  import opened Bytes

  /** The least r >= w with r*r >= n, searched upwards from w. */
  function CeilSqrtFrom(n: nat, w: nat): (r: nat)
    requires w == 0 || (w - 1) * (w - 1) < n
    ensures r * r >= n
    ensures r == 0 || (r - 1) * (r - 1) < n
    decreases n - w * w
  {
    if w * w >= n then w else CeilSqrtFrom(n, w + 1)
  }

  /** `ceil(sqrt(n))` in integers. */
  function CeilSqrt(n: nat): (w: nat)
    ensures w * w >= n
    ensures w == 0 || (w - 1) * (w - 1) < n
  {
    CeilSqrtFrom(n, 0)
  }

  /** `ceil(n / d)` in integers. */
  function CeilDiv(n: nat, d: nat): (q: nat)
    requires d > 0
    ensures q * d >= n
    ensures q == 0 || (q - 1) * d < n
  {
    var q := (n + d - 1) / d;
    assert q * d + (n + d - 1) % d == n + d - 1;
    q
  }

  lemma MulMonotone(a: nat, b: nat, c: nat)
    requires a <= b
    ensures a * c <= b * c
  {
  }

  /** The width `pixelsToImage` chooses for n intensities: the side of the least square holding n. */
  function Width(n: nat): (w: nat)
    ensures n > 0 ==> w >= 1
    ensures w * w >= n && (w == 0 || (w - 1) * (w - 1) < n)
  {
    CeilSqrt(n)
  }

  /** The height `pixelsToImage` chooses for n > 0 intensities: the fewest rows of Width(n) holding n. */
  function Height(n: nat): (h: nat)
    requires n > 0
    ensures h >= 1
    ensures h * Width(n) >= n && (h - 1) * Width(n) < n
  {
    CeilDiv(n, Width(n))
  }

  /**
   * For n > 0 both dimensions are positive, the raster holds every intensity, and less
   * than one row is padding.
   */
  lemma Dimensions(n: nat)
    requires n > 0
    ensures Width(n) >= 1 && Height(n) >= 1
    ensures Width(n) * Width(n) >= n && (Width(n) - 1) * (Width(n) - 1) < n
    ensures Width(n) * Height(n) >= n && (Height(n) - 1) * Width(n) < n
    ensures Width(n) * Height(n) - n < Width(n)
  {
  }

  /** No smaller width has a square that holds n cells. */
  lemma WidthLeast(n: nat, v: nat)
    requires v * v >= n
    ensures Width(n) <= v
  {
  }

  /** No fewer rows of Width(n) cells hold n cells. */
  lemma HeightLeast(n: nat, h: nat)
    requires n > 0 && h * Width(n) >= n
    ensures Height(n) <= h
  {
  }

  /** The raster is nearly square: the height is the width or one less. */
  lemma NearSquare(n: nat)
    requires n > 0
    ensures Height(n) == Width(n) || Height(n) + 1 == Width(n)
  {
    var w, h := Width(n), Height(n);
    Dimensions(n);
    if h > w {
      MulMonotone(w, h - 1, w);
    }
    if h + 2 <= w {
      MulMonotone(h, w - 2, w);
    }
  }

  /** Ten intensities make a 4 by 3 raster with two padding cells. */
  lemma TenPixels()
    ensures Width(10) == 4 && Height(10) == 3
  {
  }

  /** The byte `pixelsToImage` stores for intensity v: v clamped to [0, 255]. */
  function Clamp(v: int): (b: byte)
    ensures 0 <= v <= 255 ==> b == v
    ensures v < 0 ==> b == 0
    ensures v > 255 ==> b == 255
  {
    if v < 0 then 0 else if v > 255 then 255 else v
  }

  /**
   * Cell i of the raster: intensity i clamped, or the padding value 0 past the data. It is 0
   * exactly for padding and for data that is not positive; data in [0, 255] is kept as is.
   */
  function Cell(pixels: seq<int>, i: nat): (b: byte)
    ensures b == 0 <==> i >= |pixels| || pixels[i] <= 0
    ensures i < |pixels| && 0 <= pixels[i] <= 255 ==> b == pixels[i]
  {
    if i < |pixels| then Clamp(pixels[i]) else 0
  }

  /** The first `cells` cells, in order: the clamped intensities, then padding 0s. */
  function Body(pixels: seq<int>, cells: nat): (body: seq<byte>)
    ensures |body| == cells
    ensures forall i :: 0 <= i < |body| && i < |pixels| ==> body[i] == Clamp(pixels[i])
    ensures forall i :: |pixels| <= i < |body| ==> body[i] == 0
  {
    seq(cells, i requires 0 <= i < cells => Cell(pixels, i))
  }

  /** A raster: its dimensions and its cells in row-major order. */
  datatype Raster = Raster(width: nat, height: nat, cells: seq<byte>)

  /** The raster `pixelsToImage` writes for n > 0 intensities. */
  function Layout(pixels: seq<int>): (r: Raster)
    requires |pixels| > 0
    ensures r.width >= 1 && r.height >= 1
    ensures |r.cells| == r.width * r.height >= |pixels|
    ensures forall i :: 0 <= i < |pixels| ==> r.cells[i] == Clamp(pixels[i])
    ensures forall i :: |pixels| <= i < |r.cells| ==> r.cells[i] == 0
  {
    Dimensions(|pixels|);
    Raster(Width(|pixels|), Height(|pixels|), Body(pixels, Width(|pixels|) * Height(|pixels|)))
  }

  /** Row r of a w-wide raster, as a grid would hold it. */
  function Row(pixels: seq<int>, w: nat, r: nat): (row: seq<byte>)
  {
    seq<byte>(w, c requires 0 <= c < w => Cell(pixels, r * w + c))
  }

  /** The rows of a grid laid end to end. */
  function Flatten(rows: seq<seq<byte>>): seq<byte>
  {
    if rows == [] then [] else Flatten(rows[..|rows| - 1]) + rows[|rows| - 1]
  }

  /** The first h rows of a w-wide grid. */
  function Grid(pixels: seq<int>, w: nat, h: nat): (rows: seq<seq<byte>>)
    ensures |rows| == h
  {
    seq(h, r requires 0 <= r < h => Row(pixels, w, r))
  }

  /** The cells of row r of a w-wide body are Row(pixels, w, r). */
  lemma {:induction false} BodyRow(pixels: seq<int>, w: nat, h: nat, r: nat)
    requires r < h
    ensures w * r + w <= w * h
    ensures Body(pixels, w * h)[w * r..w * r + w] == Row(pixels, w, r)
  {
    MulMonotone(r + 1, h, w);
    assert w * r + w == (r + 1) * w && w * h == h * w;
    var b := Body(pixels, w * h);
    var row := Row(pixels, w, r);
    forall c | 0 <= c < w
      ensures b[w * r + c] == row[c]
    {
      assert r * w + c == w * r + c;
    }
  }

  /** The body is the grid read row by row, top to bottom, each row left to right. */
  lemma {:induction false} BodyIsRowMajor(pixels: seq<int>, w: nat, h: nat)
    ensures Flatten(Grid(pixels, w, h)) == Body(pixels, w * h)
  {
    if h > 0 {
      var g := Grid(pixels, w, h);
      assert g[..h - 1] == Grid(pixels, w, h - 1);
      BodyIsRowMajor(pixels, w, h - 1);
      BodyRow(pixels, w, h, h - 1);
      var b := Body(pixels, w * h);
      assert b[..w * (h - 1)] == Body(pixels, w * (h - 1)) by {
        assert w * (h - 1) <= w * h;
      }
      assert b == b[..w * (h - 1)] + b[w * (h - 1)..w * (h - 1) + w] by {
        assert w * (h - 1) + w == w * h;
      }
    }
  }
}
