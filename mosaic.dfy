/** The brick and block mosaics: each visible pixel of the (already
    resized) source image becomes one square tile on a transparent canvas
    that is `cell` times larger in each dimension. */
module Mosaic {
  import opened Imaging
  import opened Helpers
  import opened PaletteMatch

  /** Width and height of one brick tile. */
  const BrickSize: nat := 30
  /** Long side the source is resized to for bricks when no size is given. */
  const BrickDefault: nat := 40
  /** Long side the source is resized to for blocks when no size is given. */
  const BlockDefault: nat := 70

  /** The resize target of the brick endpoint for its optional u8 `size`. */
  function BrickTarget(size: Option<Byte>): (s: nat)
    ensures s <= 255
    ensures size.None? ==> s == 40
    ensures size.Some? ==> s == size.value
  {
    match size
    case None => BrickDefault
    case Some(v) => v
  }

  /** The resize target of the block endpoint for its optional u8 `size`. */
  function BlockTarget(size: Option<Byte>): (s: nat)
    ensures s <= 255
    ensures size.None? ==> s == 70
    ensures size.Some? ==> s == size.value
  {
    match size
    case None => BlockDefault
    case Some(v) => v
  }

  /** The three colour bands of the grey brick texture. */
  datatype Template = Template(r: Band, g: Band, b: Band)
  {
    predicate Valid()
    {
      r.HasSize(BrickSize, BrickSize) && g.HasSize(BrickSize, BrickSize) && b.HasSize(BrickSize, BrickSize)
    }
  }

  /** `Image::from_bands`: one RGBA image out of four bands of one size. */
  function FromBands(r: Band, g: Band, b: Band, a: Band): (img: Image)
    requires r.Valid() && g.HasSize(r.width, r.height) && b.HasSize(r.width, r.height) && a.HasSize(r.width, r.height)
    ensures img.HasSize(r.width, r.height)
    ensures forall y, x | 0 <= y < r.height && 0 <= x < r.width ::
      img.rows[y][x] == Rgba(r.rows[y][x], g.rows[y][x], b.rows[y][x], a.rows[y][x])
  {
    Grid(r.width, r.height,
      seq(r.height, y requires 0 <= y < r.height =>
        seq(r.width, x requires 0 <= x < r.width => Rgba(r.rows[y][x], g.rows[y][x], b.rows[y][x], a.rows[y][x]))))
  }

  /** The brick pasted for pixel `p`: the template's R, G and B bands
      remapped towards p's R, G and B, and an alpha band equal to p's
      alpha everywhere. */
  function BrickTile(t: Template, p: Rgba): (tile: Image)
    requires t.Valid()
    ensures tile.HasSize(BrickSize, BrickSize)
    ensures forall y, x | 0 <= y < BrickSize && 0 <= x < BrickSize ::
      tile.rows[y][x] == Rgba(RemapValue(t.r.rows[y][x], p.r), RemapValue(t.g.rows[y][x], p.g),
                              RemapValue(t.b.rows[y][x], p.b), p.a)
  {
    FromBands(ColorizeBand(t.r, p.r), ColorizeBand(t.g, p.g), ColorizeBand(t.b, p.b),
              Uniform(BrickSize, BrickSize, p.a))
  }

  /** The two mosaic styles: bricks recoloured from a template, or blocks
      looked up in a palette. */
  datatype Style = Bricks(template: Template) | Blocks(palette: Palette)
  {
    predicate Valid()
    {
      match this
      case Bricks(t) => t.Valid()
      case Blocks(pal) => pal.Valid()
    }

    /** The side of one mosaic cell in canvas pixels. */
    function CellSize(): nat
    {
      match this
      case Bricks(_) => BrickSize
      case Blocks(_) => BlockSize
    }
  }

  /** The tile drawn for a visible pixel `p`. A block palette without
      entries has no tile at all: the block mosaic stops before any cell
      would need one, so the transparent tile given then is never drawn. */
  function TileFor(style: Style, p: Rgba): (tile: Image)
    requires style.Valid()
    ensures tile.HasSize(style.CellSize(), style.CellSize())
    ensures style.Blocks? && |style.palette.sample| > 0 ==>
      tile == style.palette.blocks[style.palette.sample[Nearest(style.palette.sample, p)]]
  {
    match style
    case Bricks(t) => BrickTile(t, p)
    case Blocks(pal) =>
      match MatchColor(pal, p)
      case Some(c) => pal.blocks[c]
      case None => Uniform(BlockSize, BlockSize, Transparent)
  }

  /** A positive multiple of `b` is at least `b` (for CellFits, CellOf and CellCoordinates). */
  lemma MulAtLeast(a: int, b: nat)
    requires a >= 1
    ensures a * b >= b
  {
  }

  /** Multiplication distributes over a difference (for CellFits, CellOf and CellCoordinates). */
  lemma Distribute(a: int, b: int, c: int)
    ensures a * c - b * c == (a - b) * c
  {
  }

  /** Euclidean division of a position by the cell size (for CellOf and CellCoordinates). */
  lemma DivMod(v: nat, cell: nat)
    requires 0 < cell
    ensures v == (v / cell) * cell + v % cell && 0 <= v % cell < cell
  {
  }

  /** The last cell of a side of `n` cells ends at the side's end. */
  lemma CellFits(k: nat, n: nat, cell: nat)
    requires k < n
    ensures k * cell + cell <= n * cell
  {
    Distribute(n, k, cell);
    MulAtLeast(n - k, cell);
  }

  /** Position `v` on a canvas side of `n` cells lies in cell `v / cell`,
      at offset `v % cell` inside it. */
  lemma CellOf(v: nat, cell: nat, n: nat)
    requires 0 < cell && v < n * cell
    ensures v / cell < n
    ensures (v / cell) * cell <= v < (v / cell) * cell + cell
    ensures v % cell == v - (v / cell) * cell
  {
    DivMod(v, cell);
    var q := v / cell;
    if q >= n {
      Distribute(q, n, cell);
      assert (q - n) * cell >= 0 by { if q > n { MulAtLeast(q - n, cell); } }
    }
  }

  /** A position inside cell `k` is found again in cell `k` by division,
      at its offset from the cell's start. */
  lemma CellCoordinates(k: nat, cell: nat, v: nat)
    requires k * cell <= v < k * cell + cell
    ensures v / cell == k
    ensures v % cell == v - k * cell
  {
    DivMod(v, cell);
    var q := v / cell;
    Distribute(q, k, cell);
    if q > k {
      MulAtLeast(q - k, cell);
    } else if q < k {
      Distribute(k, q, cell);
      MulAtLeast(k - q, cell);
    }
  }

  /** The canvas pixel at row `y`, column `x` of the finished mosaic: the
      pixel of the tile belonging to the source pixel whose cell holds the
      position, or transparent where that source pixel has alpha 0. */
  function MosaicPixel(image: Image, style: Style, y: nat, x: nat): Rgba
    requires image.Valid() && style.Valid()
    requires y < image.height * style.CellSize() && x < image.width * style.CellSize()
  {
    var cell := style.CellSize();
    CellOf(y, cell, image.height);
    CellOf(x, cell, image.width);
    var p := image.rows[y / cell][x / cell];
    if p.a > 0 then TileFor(style, p).rows[y % cell][x % cell] else Transparent
  }

  /** Canvas position (y, x) lies in the cell of source row `r`, column `c`. */
  predicate InCell(style: Style, r: nat, c: nat, y: nat, x: nat)
  {
    var cell := style.CellSize();
    r * cell <= y < r * cell + cell && c * cell <= x < c * cell + cell
  }

  /** The source pixel at row `r`, column `c` owns the cell whose top-left
      corner is (r * cell, c * cell): every position in that cell shows the
      tile of that pixel at the same offset, or is transparent when the
      pixel has alpha 0. */
  lemma CellPlacement(image: Image, style: Style, r: nat, c: nat)
    requires image.Valid() && style.Valid() && r < image.height && c < image.width
    ensures forall y: nat, x: nat | InCell(style, r, c, y, x) ::
      && y < image.height * style.CellSize() && x < image.width * style.CellSize()
      && MosaicPixel(image, style, y, x) ==
           var p := image.rows[r][c];
           if p.a > 0 then TileFor(style, p).rows[y - r * style.CellSize()][x - c * style.CellSize()]
           else Transparent
  {
    forall y: nat, x: nat | InCell(style, r, c, y, x) {
      CellPlacementAt(image, style, r, c, y, x);
    }
  }

  lemma CellPlacementAt(image: Image, style: Style, r: nat, c: nat, y: nat, x: nat)
    requires image.Valid() && style.Valid() && r < image.height && c < image.width
    requires InCell(style, r, c, y, x)
    ensures y < image.height * style.CellSize() && x < image.width * style.CellSize()
    ensures MosaicPixel(image, style, y, x) ==
      var p := image.rows[r][c];
      if p.a > 0 then TileFor(style, p).rows[y - r * style.CellSize()][x - c * style.CellSize()]
      else Transparent
  {
    var cell := style.CellSize();
    CellFits(r, image.height, cell);
    CellFits(c, image.width, cell);
    CellCoordinates(r, cell, y);
    CellCoordinates(c, cell, x);
  }

  /** The cells partition the canvas: every canvas position lies in the
      cell of exactly one source pixel. */
  lemma CellsPartitionCanvas(image: Image, style: Style, y: nat, x: nat)
    requires image.Valid() && style.Valid()
    requires y < image.height * style.CellSize() && x < image.width * style.CellSize()
    ensures y / style.CellSize() < image.height && x / style.CellSize() < image.width
    ensures InCell(style, y / style.CellSize(), x / style.CellSize(), y, x)
    ensures forall r: nat, c: nat | InCell(style, r, c, y, x) ::
      r == y / style.CellSize() && c == x / style.CellSize()
  {
    var cell := style.CellSize();
    CellOf(y, cell, image.height);
    CellOf(x, cell, image.width);
    forall r: nat, c: nat | InCell(style, r, c, y, x)
      ensures r == y / cell && c == x / cell
    {
      CellCoordinates(r, cell, y);
      CellCoordinates(c, cell, x);
    }
  }

  /** A source pixel with alpha 0 leaves its whole cell transparent. */
  lemma SkippedCellIsTransparent(image: Image, style: Style, r: nat, c: nat)
    requires image.Valid() && style.Valid() && r < image.height && c < image.width
    requires image.rows[r][c].a == 0
    ensures forall y: nat, x: nat | InCell(style, r, c, y, x) ::
      y < image.height * style.CellSize() && x < image.width * style.CellSize()
      && MosaicPixel(image, style, y, x) == Transparent
  {
    CellPlacement(image, style, r, c);
  }

  /** The brick mosaic pixel by pixel: inside a visible pixel's cell the
      R, G, B of the template remapped towards that pixel, and its alpha. */
  lemma BrickPixel(image: Image, t: Template, y: nat, x: nat)
    requires image.Valid() && t.Valid()
    requires y < image.height * BrickSize && x < image.width * BrickSize
    ensures var p := image.rows[y / BrickSize][x / BrickSize];
      var ty, tx := y % BrickSize, x % BrickSize;
      y / BrickSize < image.height && x / BrickSize < image.width && ty < BrickSize && tx < BrickSize
      && MosaicPixel(image, Bricks(t), y, x) ==
           if p.a > 0
           then Rgba(RemapValue(t.r.rows[ty][tx], p.r), RemapValue(t.g.rows[ty][tx], p.g),
                     RemapValue(t.b.rows[ty][tx], p.b), p.a)
           else Transparent
  {
    CellOf(y, BrickSize, image.height);
    CellOf(x, BrickSize, image.width);
  }

  /** A fully opaque source over a single-entry palette is covered by that
      entry's block without gaps: every canvas pixel is the block's pixel
      at the same offset within its cell. */
  lemma SingleBlockCoversCanvas(image: Image, palette: Palette, y: nat, x: nat)
    requires image.Valid() && palette.Valid() && |palette.sample| == 1
    requires forall r, c | 0 <= r < image.height && 0 <= c < image.width :: image.rows[r][c].a > 0
    requires y < image.height * BlockSize && x < image.width * BlockSize
    ensures y % BlockSize < BlockSize && x % BlockSize < BlockSize
    ensures MosaicPixel(image, Blocks(palette), y, x) ==
      palette.blocks[palette.sample[0]].rows[y % BlockSize][x % BlockSize]
  {
    CellOf(y, BlockSize, image.height);
    CellOf(x, BlockSize, image.width);
    SingleEntryMatch(palette, image.rows[y / BlockSize][x / BlockSize]);
  }

  /** The canvas after the cursor has passed row `y0` up to column `x0`:
      rows above `y0` and the cells of the current row left of `x0` are
      finished, everything else is still transparent. */
  ghost predicate DrawnUpTo(base: Canvas, image: Image, style: Style, y0: nat, x0: nat)
    reads base, base.data
    requires base.Valid() && image.Valid() && style.Valid()
    requires base.height == image.height * style.CellSize() && base.width == image.width * style.CellSize()
  {
    forall y, x | 0 <= y < base.height && 0 <= x < base.width ::
      base.data[y, x] ==
        if y < y0 || (y < y0 + style.CellSize() && x < x0) then MosaicPixel(image, style, y, x)
        else Transparent
  }

  /** A pixel with alpha 0 is skipped: the canvas is not touched, and the
      finished region still grows by that pixel's (transparent) cell. */
  lemma SkipCell(base: Canvas, image: Image, style: Style, r: nat, c: nat, x: nat, y: nat)
    requires base.Valid() && image.Valid() && style.Valid()
    requires base.height == image.height * style.CellSize() && base.width == image.width * style.CellSize()
    requires r < image.height && c < image.width && image.rows[r][c].a == 0
    requires x == c * style.CellSize() && y == r * style.CellSize()
    requires DrawnUpTo(base, image, style, y, x)
    ensures DrawnUpTo(base, image, style, y, x + style.CellSize())
  {
    var cell := style.CellSize();
    forall yy, xx | 0 <= yy < base.height && 0 <= xx < base.width && y <= yy < y + cell && x <= xx < x + cell
      ensures MosaicPixel(image, style, yy, xx) == Transparent
    {
      CellPlacementAt(image, style, r, c, yy, xx);
    }
  }

  /** The paste of one visible pixel's tile at the cursor (x, y), which
      stands at (c * cell, r * cell): afterwards that pixel's cell is
      finished as well. */
  method PasteCell(base: Canvas, image: Image, ghost style: Style, r: nat, c: nat, x: nat, y: nat, tile: Image)
    requires base.Valid() && image.Valid() && style.Valid()
    requires base.height == image.height * style.CellSize() && base.width == image.width * style.CellSize()
    requires r < image.height && c < image.width && image.rows[r][c].a > 0
    requires x == c * style.CellSize() && y == r * style.CellSize()
    requires tile == TileFor(style, image.rows[r][c])
    requires DrawnUpTo(base, image, style, y, x)
    modifies base.data
    ensures DrawnUpTo(base, image, style, y, x + style.CellSize())
  {
    var cell := style.CellSize();
    CellFits(r, image.height, cell);
    CellFits(c, image.width, cell);
    base.Paste(x, y, tile);
    forall yy, xx | 0 <= yy < base.height && 0 <= xx < base.width
      ensures base.data[yy, xx] ==
        if yy < y || (yy < y + cell && xx < x + cell) then MosaicPixel(image, style, yy, xx) else Transparent
    {
      if y <= yy < y + cell && x <= xx < x + cell {
        assert base.data[yy, xx] == tile.rows[yy - y][xx - x];
        CellPlacementAt(image, style, r, c, yy, xx);
      } else {
        assert base.data[yy, xx] == old(base.data[yy, xx]);
      }
    }
  }

  /** `lego`: the brick mosaic of the resized image. The canvas is 30 times
      the image in each dimension and starts transparent; the cursor walks
      the image row by row, `x` moving 30 to the right per pixel and back
      to 0 after each row, `y` moving 30 down per row, and each visible
      pixel's brick is pasted at the cursor. */
  method Lego(image: Image, template: Template) returns (base: Canvas)
    requires image.Valid() && template.Valid()
    ensures fresh(base) && fresh(base.data) && base.Valid()
    ensures base.width == image.width * BrickSize && base.height == image.height * BrickSize
    ensures forall y, x | 0 <= y < base.height && 0 <= x < base.width ::
      base.data[y, x] == MosaicPixel(image, Bricks(template), y, x)
  {
    ghost var style := Bricks(template);
    var x, y := 0, 0;
    base := new Canvas(image.width * BrickSize, image.height * BrickSize, Transparent);
    var r := 0;
    while r < image.height
      invariant 0 <= r <= image.height && x == 0 && y == r * BrickSize
      invariant base.Valid() && fresh(base.data)
      invariant base.width == image.width * BrickSize && base.height == image.height * BrickSize
      invariant DrawnUpTo(base, image, style, y, 0)
    {
      var row := image.rows[r];
      var c := 0;
      while c < image.width
        invariant 0 <= c <= image.width && x == c * BrickSize && y == r * BrickSize
        invariant DrawnUpTo(base, image, style, y, x)
      {
        var pixel := row[c];
        if pixel.a > 0 {
          PasteCell(base, image, style, r, c, x, y, BrickTile(template, pixel));
        } else {
          SkipCell(base, image, style, r, c, x, y);
        }
        x := x + BrickSize;
        c := c + 1;
      }
      x := 0;
      y := y + BrickSize;
      r := r + 1;
    }
  }

  /** `minecraft`: the block mosaic of the resized image, walked like the
      brick mosaic with cells of 20, each visible pixel drawn with the
      block of its nearest palette colour. With an empty palette the
      search's `unwrap` panics at the first visible pixel: then there is
      no result. */
  method Minecraft(image: Image, palette: Palette) returns (result: Option<Canvas>)
    requires image.Valid() && palette.Valid()
    ensures result.None? <==>
      (|palette.sample| == 0 &&
       exists r, c | 0 <= r < image.height && 0 <= c < image.width :: image.rows[r][c].a > 0)
    ensures result.Some? ==> fresh(result.value) && fresh(result.value.data) && result.value.Valid()
    ensures result.Some? ==>
      result.value.width == image.width * BlockSize && result.value.height == image.height * BlockSize
    ensures result.Some? ==> forall y, x | 0 <= y < result.value.height && 0 <= x < result.value.width ::
      result.value.data[y, x] == MosaicPixel(image, Blocks(palette), y, x)
  {
    ghost var style := Blocks(palette);
    var x, y := 0, 0;
    var base := new Canvas(image.width * BlockSize, image.height * BlockSize, Transparent);
    var r := 0;
    while r < image.height
      invariant 0 <= r <= image.height && x == 0 && y == r * BlockSize
      invariant base.Valid() && fresh(base.data)
      invariant base.width == image.width * BlockSize && base.height == image.height * BlockSize
      invariant DrawnUpTo(base, image, style, y, 0)
      invariant |palette.sample| == 0 ==>
        forall r', c' | 0 <= r' < r && 0 <= c' < image.width :: image.rows[r'][c'].a == 0
    {
      var row := image.rows[r];
      var c := 0;
      while c < image.width
        invariant 0 <= c <= image.width && x == c * BlockSize && y == r * BlockSize
        invariant DrawnUpTo(base, image, style, y, x)
        invariant |palette.sample| == 0 ==>
          forall r', c' | 0 <= c' < image.width && (0 <= r' < r || (r' == r && c' < c)) ::
            image.rows[r'][c'].a == 0
      {
        var pixel := row[c];
        if pixel.a > 0 {
          var color := MatchColor(palette, pixel);
          if color.None? {
            result := None;
            return;
          }
          PasteCell(base, image, style, r, c, x, y, palette.blocks[color.value]);
        } else {
          SkipCell(base, image, style, r, c, x, y);
        }
        x := x + BlockSize;
        c := c + 1;
      }
      x := 0;
      y := y + BlockSize;
      r := r + 1;
    }
    result := Some(base);
  }
}
