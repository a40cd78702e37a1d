/** The in-memory RGB raster: pixels of three 8-bit channels, stored row by
    row, pixel (x, y) of a raster `width` pixels wide at `y * width + x`. */
module Raster {

  type Byte = x: int | 0 <= x < 256

  datatype Rgb = Rgb(r: Byte, g: Byte, b: Byte)

  /** The colour of a freshly allocated raster. */
  const Black: Rgb := Rgb(0, 0, 0)

  /** A raster of `n` pixels as allocated, before anything is drawn. */
  function Blank(n: nat): (s: seq<Rgb>)
    ensures |s| == n && forall k :: 0 <= k < n ==> s[k] == Black
  {
    seq(n, _ => Black)
  }

  /** The cell of pixel (x, y) lies inside a `width` by `height` raster,
      and the cells of row y come after all cells of earlier rows. */
  lemma CellIndex(width: nat, height: nat, x: nat, y: nat)
    requires x < width && y < height
    ensures y * width + x < width * height
    ensures y * width + x < (y + 1) * width <= height * width
  {
    assert (y + 1) * width == y * width + width;
    MulMonotone(y + 1, height, width);
  }

  /** Row y of a `width` by `height` raster ends inside it. */
  lemma RowEnd(width: nat, height: nat, y: nat)
    requires y < height
    ensures y * width + width == (y + 1) * width <= width * height
  {
    MulMonotone(y + 1, height, width);
  }

  /** Multiplication by a natural number is monotone. */
  lemma {:induction false} MulMonotone(a: nat, b: nat, c: nat)
    requires a <= b
    ensures a * c <= b * c
    decreases b - a
  {
    if a < b {
      MulMonotone(a + 1, b, c);
      assert (a + 1) * c == a * c + c;
    }
  }
}
