/** The raster types the mosaic endpoints work on: 8-bit channels, RGBA
    pixels, images of any pixel type stored row by row, and the mutable
    canvas that the mosaic is pasted onto. */
module Imaging {

  /** An 8-bit channel value (u8). */
  type Byte = x: int | 0 <= x < 256

  /** One RGBA pixel; `a == 0` is fully transparent. */
  datatype Rgba = Rgba(r: Byte, g: Byte, b: Byte, a: Byte)

  /** The colour every fresh mosaic canvas is filled with. */
  const Transparent: Rgba := Rgba(0, 0, 0, 0)

  datatype Option<T> = None | Some(value: T)

  /** An image of pixel type `T`, as the list of its rows (origin top-left).
      `Grid<Rgba>` is a colour image, `Grid<Byte>` a single luminance band. */
  datatype Grid<T> = Grid(width: nat, height: nat, rows: seq<seq<T>>)
  {
    /** Every row is there and has `width` pixels. */
    predicate Valid()
    {
      |rows| == height && forall y | 0 <= y < |rows| :: |rows[y]| == width
    }

    /** True when the image is `w` pixels wide and `h` pixels high. */
    predicate HasSize(w: nat, h: nat)
    {
      Valid() && width == w && height == h
    }
  }

  type Image = Grid<Rgba>
  type Band = Grid<Byte>

  /** A `w` by `h` image all of whose pixels are `value`. */
  function Uniform<T>(w: nat, h: nat, value: T): (g: Grid<T>)
    ensures g.HasSize(w, h)
    ensures forall y, x | 0 <= y < h && 0 <= x < w :: g.rows[y][x] == value
  {
    Grid(w, h, seq(h, _ => seq(w, _ => value)))
  }

  /** The image that is updated in place while a mosaic is built: its
      pixels are an `array2` indexed by (row, column). */
  class Canvas {
    const width: nat
    const height: nat
    const data: array2<Rgba>

    predicate Valid()
    {
      data.Length0 == height && data.Length1 == width
    }

    /** A `w` by `h` canvas filled with `fill`. */
    constructor (w: nat, h: nat, fill: Rgba)
      ensures Valid() && width == w && height == h && fresh(data)
      ensures forall y, x | 0 <= y < h && 0 <= x < w :: data[y, x] == fill
    {
      width, height := w, h;
      data := new Rgba[h, w]((_, _) => fill);
    }

    /** Writes `tile` with its top-left corner at column `x`, row `y`;
        every pixel outside the tile's rectangle keeps its value. */
    method Paste(x: nat, y: nat, tile: Image)
      requires Valid() && tile.Valid()
      requires x + tile.width <= width && y + tile.height <= height
      modifies data
      ensures forall yy, xx | 0 <= yy < height && 0 <= xx < width ::
        data[yy, xx] ==
          if y <= yy < y + tile.height && x <= xx < x + tile.width
          then tile.rows[yy - y][xx - x]
          else old(data[yy, xx])
    {
      var i := 0;
      while i < tile.height
        invariant 0 <= i <= tile.height
        invariant forall yy, xx | 0 <= yy < height && 0 <= xx < width ::
          data[yy, xx] ==
            if y <= yy < y + i && x <= xx < x + tile.width
            then tile.rows[yy - y][xx - x]
            else old(data[yy, xx])
      {
        var j := 0;
        while j < tile.width
          invariant 0 <= j <= tile.width
          invariant forall yy, xx | 0 <= yy < height && 0 <= xx < width ::
            data[yy, xx] ==
              if (y <= yy < y + i && x <= xx < x + tile.width) || (yy == y + i && x <= xx < x + j)
              then tile.rows[yy - y][xx - x]
              else old(data[yy, xx])
        {
          data[y + i, x + j] := tile.rows[i][j];
          j := j + 1;
        }
        i := i + 1;
      }
    }
  }
}
