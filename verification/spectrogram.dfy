/**
 Spectrogram rendering (`render_spectrogram`): a spectrogram of `W` frames
 by `H` mel bands becomes an image of `H` rows by `W` columns, frame `x`
 drawn as column `x` and band `y` drawn as row `H - 1 - y`, so the lowest
 band is the bottom row. Pixel colours are computed from floating-point
 values and are carried here as an opaque value type `V`.
 */
module Spectrogram {

  /** A grid of `rows` rows, each of `cols` values. */
  predicate IsGrid<V>(g: seq<seq<V>>, rows: nat, cols: nat) {
    |g| == rows && forall r :: 0 <= r < rows ==> |g[r]| == cols
  }

  /** The image position `(row, column)` that spectrogram cell `(x, y)` is
      drawn at. */
  function PixelOf(x: int, y: int, height: int): (p: (int, int))
    ensures p.1 == x && p.0 + y == height - 1
  {
    (height - 1 - y, x)
  }

  /** The spectrogram cell `(x, y)` that image position `(row, column)`
      shows. */
  function CellOf(row: int, col: int, height: int): (c: (int, int))
    ensures c.0 == col && c.1 + row == height - 1
  {
    (col, height - 1 - row)
  }

  predicate InSpectrogram(x: int, y: int, width: int, height: int) {
    0 <= x < width && 0 <= y < height
  }

  predicate InImage(row: int, col: int, width: int, height: int) {
    0 <= row < height && 0 <= col < width
  }

  /** The index map is a bijection between the cells and the pixels: each
      direction undoes the other, and bounds carry over both ways. */
  lemma PixelCellInverse(x: int, y: int, row: int, col: int, width: int, height: int)
    ensures CellOf(PixelOf(x, y, height).0, PixelOf(x, y, height).1, height) == (x, y)
    ensures PixelOf(CellOf(row, col, height).0, CellOf(row, col, height).1, height) == (row, col)
    ensures InSpectrogram(x, y, width, height) <==> InImage(PixelOf(x, y, height).0, PixelOf(x, y, height).1, width, height)
    ensures InImage(row, col, width, height) <==> InSpectrogram(CellOf(row, col, height).0, CellOf(row, col, height).1, width, height)
  {
  }

  /** Two cells are drawn at the same pixel only if they are the same cell. */
  lemma PixelOfInjective(x1: int, y1: int, x2: int, y2: int, height: int)
    requires PixelOf(x1, y1, height) == PixelOf(x2, y2, height)
    ensures x1 == x2 && y1 == y2
  {
    PixelCellInverse(x1, y1, 0, 0, 0, height);
    PixelCellInverse(x2, y2, 0, 0, 0, height);
  }

  /** The image the rendering produces, defined pixel by pixel: each pixel
      shows the cell `CellOf` names. */
  function Rendered<V>(mgc: seq<seq<V>>, width: nat, height: nat): (image: seq<seq<V>>)
    requires IsGrid(mgc, width, height)
    ensures IsGrid(image, height, width)
    ensures forall r, c :: 0 <= r < height && 0 <= c < width ==> image[r][c] == mgc[c][height - 1 - r]
  {
    seq(height, r requires 0 <= r < height =>
      seq(width, c requires 0 <= c < width => mgc[c][height - 1 - r]))
  }

  /** Whether the loops have reached cell `(x, y)` before position
      `(doneX, doneY)` of the iteration. */
  predicate Visited(x: int, y: int, doneX: int, doneY: int) {
    x < doneX || (x == doneX && y < doneY)
  }

  /** A blank image of the given shape. */
  function Blank<V>(rows: nat, cols: nat, background: V): (g: seq<seq<V>>)
    ensures IsGrid(g, rows, cols)
    ensures forall r, c :: 0 <= r < rows && 0 <= c < cols ==> g[r][c] == background
  {
    seq(rows, r requires 0 <= r < rows => seq(cols, c requires 0 <= c < cols => background))
  }

  /** One pixel write `bitmap[row, col] = value`. */
  function SetPixel<V>(g: seq<seq<V>>, row: nat, col: nat, value: V): (g': seq<seq<V>>)
    requires row < |g| && col < |g[row]|
    ensures |g'| == |g|
    ensures forall r :: 0 <= r < |g| ==> |g'[r]| == |g[r]|
    ensures forall r, c :: 0 <= r < |g| && 0 <= c < |g[r]| ==>
      g'[r][c] == if r == row && c == col then value else g[r][c]
  {
    g[row := g[row][col := value]]
  }

  /** The two nested loops of `render_spectrogram`: the bitmap starts
      blank and, frame by frame and band by band, every cell is written to
      its pixel. The result is exactly `Rendered`: no pixel stays blank and
      none is overwritten by a second cell. */
  method Render<V>(mgc: seq<seq<V>>, width: nat, height: nat, background: V) returns (bitmap: seq<seq<V>>)
    requires IsGrid(mgc, width, height)
    ensures bitmap == Rendered(mgc, width, height)
  {
    bitmap := Blank(height, width, background);
    var x := 0;
    while x < width
      invariant x <= width
      invariant RenderedUpTo(bitmap, mgc, width, height, x, 0, background)
    {
      var y := 0;
      while y < height
        invariant y <= height
        invariant RenderedUpTo(bitmap, mgc, width, height, x, y, background)
      {
        RenderStep(bitmap, mgc, width, height, x, y, background);
        bitmap := SetPixel(bitmap, height - 1 - y, x, mgc[x][y]);
        y := y + 1;
      }
      ColumnDone(bitmap, mgc, width, height, x, background);
      x := x + 1;
    }
    SameImage(bitmap, Rendered(mgc, width, height), height, width);
  }

  /** The bitmap after the loops have reached `(x, y)`: the visited cells
      are drawn at their pixels and every other pixel is still blank. */
  ghost predicate RenderedUpTo<V>(bitmap: seq<seq<V>>, mgc: seq<seq<V>>, width: nat, height: nat,
                                  x: nat, y: nat, background: V)
    requires IsGrid(mgc, width, height)
  {
    && IsGrid(bitmap, height, width)
    && (forall r, c :: 0 <= r < height && 0 <= c < width && Visited(c, height - 1 - r, x, y) ==>
          bitmap[r][c] == mgc[c][height - 1 - r])
    && (forall r, c :: 0 <= r < height && 0 <= c < width && !Visited(c, height - 1 - r, x, y) ==>
          bitmap[r][c] == background)
  }

  lemma RenderStep<V>(bitmap: seq<seq<V>>, mgc: seq<seq<V>>, width: nat, height: nat,
                      x: nat, y: nat, background: V)
    requires IsGrid(mgc, width, height) && x < width && y < height
    requires RenderedUpTo(bitmap, mgc, width, height, x, y, background)
    ensures RenderedUpTo(SetPixel(bitmap, height - 1 - y, x, mgc[x][y]), mgc, width, height, x, y + 1, background)
  {
    var next := SetPixel(bitmap, height - 1 - y, x, mgc[x][y]);
    forall r, c | 0 <= r < height && 0 <= c < width
      ensures Visited(c, height - 1 - r, x, y + 1) ==> next[r][c] == mgc[c][height - 1 - r]
      ensures !Visited(c, height - 1 - r, x, y + 1) ==> next[r][c] == background
    {
      if r != height - 1 - y || c != x {
        assert next[r][c] == bitmap[r][c];
      }
    }
  }

  lemma ColumnDone<V>(bitmap: seq<seq<V>>, mgc: seq<seq<V>>, width: nat, height: nat, x: nat, background: V)
    requires IsGrid(mgc, width, height)
    requires RenderedUpTo(bitmap, mgc, width, height, x, height, background)
    ensures RenderedUpTo(bitmap, mgc, width, height, x + 1, 0, background)
  {
  }

  /** Two grids of the same shape with the same values are equal. */
  lemma SameImage<V>(a: seq<seq<V>>, b: seq<seq<V>>, rows: nat, cols: nat)
    requires IsGrid(a, rows, cols) && IsGrid(b, rows, cols)
    requires forall r, c :: 0 <= r < rows && 0 <= c < cols ==> a[r][c] == b[r][c]
    ensures a == b
  {
    forall r | 0 <= r < rows ensures a[r] == b[r] {
      assert forall c :: 0 <= c < cols ==> a[r][c] == b[r][c];
    }
  }

  /** The pixel positions in the order the loops write them. */
  function WriteOrder(width: nat, height: nat): (writes: seq<(int, int)>)
    ensures |writes| == width * height
    ensures forall k :: 0 <= k < |writes| ==> writes[k] == PixelOf(k / height, k % height, height)
    decreases width
  {
    if width == 0 then []
    else
      var before := WriteOrder(width - 1, height);
      var column := seq(height, y requires 0 <= y < height => PixelOf(width - 1, y, height));
      var writes := before + column;
      assert |writes| == (width - 1) * height + height == width * height;
      forall k | 0 <= k < |writes| ensures writes[k] == PixelOf(k / height, k % height, height) {
        if k >= |before| {
          RowMajor(width - 1, k - |before|, height);
        }
      }
      writes
  }

  lemma RowMajor(x: nat, y: nat, height: nat)
    requires y < height
    ensures (x * height + y) / height == x && (x * height + y) % height == y
  {
    var k := x * height + y;
    QuotientUnique(k / height, k % height, x, y, height);
  }

  /** Division with remainder has only one answer. */
  lemma QuotientUnique(q1: int, m1: int, q2: int, m2: int, height: int)
    requires 0 <= m1 < height && 0 <= m2 < height
    requires q1 * height + m1 == q2 * height + m2
    ensures q1 == q2 && m1 == m2
  {
    var d := q1 - q2;
    assert d * height == m2 - m1 by {
      assert d * height == q1 * height - q2 * height;
    }
  }

  /** Every pixel of the image is written exactly once. */
  lemma WritesCoverOnce(width: nat, height: nat)
    ensures forall k :: 0 <= k < width * height ==>
      InImage(WriteOrder(width, height)[k].0, WriteOrder(width, height)[k].1, width, height)
    ensures forall k1, k2 :: 0 <= k1 < k2 < width * height ==>
      WriteOrder(width, height)[k1] != WriteOrder(width, height)[k2]
    ensures forall r, c :: InImage(r, c, width, height) ==> (r, c) in WriteOrder(width, height)
  {
    WritesInImage(width, height);
    WritesDistinct(width, height);
    WritesCover(width, height);
  }

  lemma WritesInImage(width: nat, height: nat)
    ensures forall k :: 0 <= k < width * height ==>
      InImage(WriteOrder(width, height)[k].0, WriteOrder(width, height)[k].1, width, height)
  {
    var writes := WriteOrder(width, height);
    forall k | 0 <= k < width * height
      ensures InImage(writes[k].0, writes[k].1, width, height)
    {
      DivBound(k, width, height);
    }
  }

  lemma WritesDistinct(width: nat, height: nat)
    ensures forall k1, k2 :: 0 <= k1 < k2 < width * height ==>
      WriteOrder(width, height)[k1] != WriteOrder(width, height)[k2]
  {
    var writes := WriteOrder(width, height);
    forall k1, k2 | 0 <= k1 < k2 < width * height ensures writes[k1] != writes[k2] {
      if writes[k1] == writes[k2] {
        PixelOfInjective(k1 / height, k1 % height, k2 / height, k2 % height, height);
        DivModUnique(k1, k2, height);
      }
    }
  }

  lemma WritesCover(width: nat, height: nat)
    ensures forall r, c :: InImage(r, c, width, height) ==> (r, c) in WriteOrder(width, height)
  {
    var writes := WriteOrder(width, height);
    forall r, c | InImage(r, c, width, height) ensures (r, c) in writes {
      var k := c * height + (height - 1 - r);
      RowMajor(c, height - 1 - r, height);
      KBound(c, height - 1 - r, width, height);
      assert writes[k] == (r, c);
    }
  }

  lemma DivBound(k: nat, width: nat, height: nat)
    requires k < width * height
    ensures height > 0 && k / height < width
  {
  }

  lemma DivModUnique(k1: nat, k2: nat, height: nat)
    requires height > 0 && k1 / height == k2 / height && k1 % height == k2 % height
    ensures k1 == k2
  {
    assert k1 == (k1 / height) * height + k1 % height;
    assert k2 == (k2 / height) * height + k2 % height;
  }

  lemma KBound(x: nat, y: nat, width: nat, height: nat)
    requires x < width && y < height
    ensures x * height + y < width * height
  {
    assert x * height + y < x * height + height == (x + 1) * height <= width * height;
  }
}
