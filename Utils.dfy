/** The grid partitioner and the tile extractor (class `Utils`): the sector
    label overlay, the row-major crop of an image into tiles, the image
    dimensions and the absolute counting error. */
module Utils {
  import opened Images

  /** The grid fits the image: `s` bands of the tile size stay inside it. */
  predicate GridFits(g: TileGrid, height: nat, width: nat)
  {
    0 < g.side && g.side * g.tileHeight <= height && g.side * g.tileWidth <= width
  }

  // ---------------------------------------------------------------------------
  // generarCuadrantes: the sector fill

  /** Value of pixel (r, c) of the sector overlay before the separating lines
      are drawn: with sectors on, a pixel inside the `s * h` by `s * w` area
      holds the 1-based row-major number of its tile; everything else is 0. */
  function SectorValue(g: TileGrid, sectors: bool, r: nat, c: nat): int
  {
    if sectors && 0 < g.tileHeight && 0 < g.tileWidth
       && r < g.side * g.tileHeight && c < g.side * g.tileWidth
    then (r / g.tileHeight) * g.side + c / g.tileWidth + 1
    else 0
  }

  /** Pixel (r, c) lies in tile (i, j). */
  predicate InTile(g: TileGrid, i: nat, j: nat, r: int, c: int)
  {
    i * g.tileHeight <= r < (i + 1) * g.tileHeight && j * g.tileWidth <= c < (j + 1) * g.tileWidth
  }

  /** The fill after the loop has painted, in row-major order, every tile
      before tile (i, j): the last painted tile holding the pixel gives it
      its number plus one; an unpainted pixel is 0. */
  function Painted(g: TileGrid, i: nat, j: nat, r: int, c: int): int
    requires j <= g.side
    decreases i, j
  {
    if j == 0 then (if i == 0 then 0 else Painted(g, i - 1, g.side, r, c))
    else if InTile(g, i, j - 1, r, c) then i * g.side + (j - 1) + 1
    else Painted(g, i, j - 1, r, c)
  }

  /** The fill before tile (i, j), stated without the painting order: the
      pixel's own tile number plus one when that tile precedes (i, j). */
  ghost function FilledBefore(g: TileGrid, i: nat, j: nat, r: nat, c: nat): int
  {
    if 0 < g.tileHeight && 0 < g.tileWidth
       && r / g.tileHeight < g.side && c / g.tileWidth < g.side
       && (r / g.tileHeight < i || (r / g.tileHeight == i && c / g.tileWidth < j))
    then (r / g.tileHeight) * g.side + c / g.tileWidth + 1
    else 0
  }

  /** Painting tile (i, j) changes exactly the pixels of that tile. */
  lemma FillStep(g: TileGrid, i: nat, j: nat, r: nat, c: nat)
    requires 0 < g.tileHeight && 0 < g.tileWidth && i < g.side && j < g.side
    ensures FilledBefore(g, i, j + 1, r, c) ==
      if InTile(g, i, j, r, c) then i * g.side + j + 1 else FilledBefore(g, i, j, r, c)
  {
    BandOf(r, g.tileHeight, i);
    BandOf(c, g.tileWidth, j);
  }

  /** Finishing row i of the grid is starting row i + 1. */
  lemma FilledRowWrap(g: TileGrid, i: nat, r: nat, c: nat)
    ensures FilledBefore(g, i, g.side, r, c) == FilledBefore(g, i + 1, 0, r, c)
  {
  }

  /** Tiles do not overlap, so painting them one after the other leaves
      every pixel with the number of its own tile, once that tile is painted. */
  lemma {:induction false} PaintedIsFilled(g: TileGrid, i: nat, j: nat, r: nat, c: nat)
    requires j <= g.side && (i < g.side || (i == g.side && j == 0))
    ensures Painted(g, i, j, r, c) == FilledBefore(g, i, j, r, c)
  {
    if j == 0 {
      if i > 0 {
        PaintedIsFilled(g, i - 1, g.side, r, c);
        FilledRowWrap(g, i - 1, r, c);
      }
    } else {
      PaintedIsFilled(g, i, j - 1, r, c);
      if 0 < g.tileHeight && 0 < g.tileWidth {
        FillStep(g, i, j - 1, r, c);
      }
    }
  }

  /** Once every tile is painted the fill is the sector overlay. */
  lemma FillDone(g: TileGrid, r: nat, c: nat)
    ensures FilledBefore(g, g.side, 0, r, c) == SectorValue(g, true, r, c)
  {
    if 0 < g.tileHeight && 0 < g.tileWidth {
      BelowBands(r, g.tileHeight, g.side);
      BelowBands(c, g.tileWidth, g.side);
    }
  }

  /** `labelsCuadrantes[filaInicio:filaFin, colInicio:colFin] = i * raiz + j + 1`:
      tile (i, j) takes its number plus one, every other pixel is unchanged. */
  method PaintTile(labels: array2<int>, g: TileGrid, i: nat, j: nat)
    requires i < g.side && j < g.side
    requires g.side * g.tileHeight <= labels.Length0 && g.side * g.tileWidth <= labels.Length1
    modifies labels
    ensures forall y, x :: 0 <= y < labels.Length0 && 0 <= x < labels.Length1 ==>
      labels[y, x] == if InTile(g, i, j, y, x) then i * g.side + j + 1 else old(labels[y, x])
  {
    BandInside(i, g.side, g.tileHeight);
    BandInside(j, g.side, g.tileWidth);
    var top, left, number := i * g.tileHeight, j * g.tileWidth, i * g.side + j + 1;
    forall y, x | top <= y < top + g.tileHeight && left <= x < left + g.tileWidth {
      labels[y, x] := number;
    }
  }

  /** `generarCuadrantes` up to the separating lines: a zero label image of
      the image's size, with every tile filled with its 1-based row-major
      number when `sectors` is set. Raises when no cell is requested. */
  method SectorLabels(height: nat, width: nat, cells: nat, sectors: bool)
    returns (r: Result<array2<int>>)
    ensures r.Err? <==> cells == 0
    ensures r.Ok? ==>
      fresh(r.value) && r.value.Length0 == height && r.value.Length1 == width &&
      forall y, x :: 0 <= y < height && 0 <= x < width ==>
        r.value[y, x] == SectorValue(Partition(height, width, cells).value, sectors, y, x)
  {
    var p := Partition(height, width, cells);
    if p.Err? {
      return Err(p.error);
    }
    var g := p.value;
    var s, h, w := g.side, g.tileHeight, g.tileWidth;
    var labels := new int[height, width]((_, _) => 0);
    if sectors {
      var i := 0;
      while i < s
        invariant 0 <= i <= s
        invariant forall y, x :: 0 <= y < height && 0 <= x < width ==>
          labels[y, x] == Painted(g, i, 0, y, x)
      {
        var j := 0;
        while j < s
          invariant 0 <= j <= s
          invariant forall y, x :: 0 <= y < height && 0 <= x < width ==>
            labels[y, x] == Painted(g, i, j, y, x)
        {
          PaintTile(labels, g, i, j);
          j := j + 1;
        }
        i := i + 1;
      }
      forall y: nat, x: nat | y < height && x < width
        ensures labels[y, x] == SectorValue(g, sectors, y, x)
      {
        PaintedIsFilled(g, s, 0, y, x);
        FillDone(g, y, x);
      }
    }
    return Ok(labels);
  }

  /** Pixel (r, c) of tile (i, j) of the overlay is labelled `i * s + j + 1`:
      the number of that tile in the row-major order of the crop, plus one. */
  lemma SectorOfTilePixel(g: TileGrid, i: nat, j: nat, r: nat, c: nat)
    requires i < g.side && j < g.side && r < g.tileHeight && c < g.tileWidth
    ensures SectorValue(g, true, i * g.tileHeight + r, j * g.tileWidth + c) == i * g.side + j + 1
  {
    BandOf(i * g.tileHeight + r, g.tileHeight, i);
    BandOf(j * g.tileWidth + c, g.tileWidth, j);
    BandInside(i, g.side, g.tileHeight);
    BandInside(j, g.side, g.tileWidth);
  }

  // ---------------------------------------------------------------------------
  // recortarCuadrantes: the row-major crop

  /** `imagen[top : top + h, left : left + w]`, a window inside the image. */
  function Crop<P>(img: seq<seq<P>>, top: nat, left: nat, h: nat, w: nat): (t: seq<seq<P>>)
    requires IsRect(img) && top + h <= |img| && left + w <= Width(img)
    ensures HasShape(t, h, w)
    ensures forall r, c :: 0 <= r < h && 0 <= c < w ==> t[r][c] == img[top + r][left + c]
  {
    seq(h, r requires 0 <= r < h => img[top + r][left .. left + w])
  }

  /** Tile (i, j) of the grid: the window at row `i * h` and column `j * w`. */
  function Tile<P>(img: seq<seq<P>>, g: TileGrid, i: nat, j: nat): (t: seq<seq<P>>)
    requires IsRect(img) && GridFits(g, |img|, Width(img)) && i < g.side && j < g.side
    ensures HasShape(t, g.tileHeight, g.tileWidth)
  {
    BandInside(i, g.side, g.tileHeight);
    BandInside(j, g.side, g.tileWidth);
    Crop(img, i * g.tileHeight, j * g.tileWidth, g.tileHeight, g.tileWidth)
  }

  /** Pixel (r, c) of tile (i, j) is image pixel `(i * h + r, j * w + c)`,
      which lies inside the image. */
  lemma TilePixel<P>(img: seq<seq<P>>, g: TileGrid, i: nat, j: nat, r: nat, c: nat)
    requires IsRect(img) && GridFits(g, |img|, Width(img)) && i < g.side && j < g.side
    requires r < g.tileHeight && c < g.tileWidth
    ensures i * g.tileHeight + r < |img| && j * g.tileWidth + c < Width(img)
    ensures Tile(img, g, i, j)[r][c] == img[i * g.tileHeight + r][j * g.tileWidth + c]
  {
    BandInside(i, g.side, g.tileHeight);
    BandInside(j, g.side, g.tileWidth);
  }

  /** Grid row i: tiles (i, 0) .. (i, s-1), left to right. */
  function TileRow<P>(img: seq<seq<P>>, g: TileGrid, i: nat): (row: seq<seq<seq<P>>>)
    requires IsRect(img) && GridFits(g, |img|, Width(img)) && i < g.side
    ensures |row| == g.side
    ensures forall j :: 0 <= j < g.side ==> row[j] == Tile(img, g, i, j)
  {
    seq(g.side, j requires 0 <= j < g.side => Tile(img, g, i, j))
  }

  /** Grid rows 0 .. n-1, top to bottom: the tiles in row-major order. */
  function RowMajorTiles<P>(img: seq<seq<P>>, g: TileGrid, n: nat): seq<seq<seq<P>>>
    requires IsRect(img) && GridFits(g, |img|, Width(img)) && n <= g.side
  {
    if n == 0 then [] else RowMajorTiles(img, g, n - 1) + TileRow(img, g, n - 1)
  }

  /** The first n grid rows hold `n * s` tiles. */
  lemma {:induction false} RowMajorTilesLength<P>(img: seq<seq<P>>, g: TileGrid, n: nat)
    requires IsRect(img) && GridFits(g, |img|, Width(img)) && n <= g.side
    ensures |RowMajorTiles(img, g, n)| == n * g.side
  {
    if n > 0 {
      RowMajorTilesLength(img, g, n - 1);
      BandInside(n - 1, n, g.side);
    }
  }

  /** Tile number `i * s + j` of the row-major list is the tile at grid
      position (i, j) (its pixels are given by TilePixel). */
  lemma {:induction false} RowMajorTilesAt<P>(img: seq<seq<P>>, g: TileGrid, n: nat, i: nat, j: nat)
    requires IsRect(img) && GridFits(g, |img|, Width(img)) && i < n <= g.side && j < g.side
    ensures |RowMajorTiles(img, g, n)| == n * g.side
    ensures i * g.side + j < n * g.side
    ensures RowMajorTiles(img, g, n)[i * g.side + j] == Tile(img, g, i, j)
  {
    RowMajorTilesLength(img, g, n);
    RowMajorTilesLength(img, g, n - 1);
    BandInside(i, n, g.side);
    if i < n - 1 {
      RowMajorTilesAt(img, g, n - 1, i, j);
      BandInside(i, n - 1, g.side);
    } else {
      BandInside(n - 1, n, g.side);
    }
  }

  /** `recortarCuadrantes`: the tiles of the image in row-major order, each of
      the tile size; the strip beyond `s * h` rows and `s * w` columns belongs
      to no tile. Raises when no cell is requested. */
  method CropTiles<P>(img: seq<seq<P>>, cells: nat) returns (r: Result<seq<seq<seq<P>>>>)
    requires IsRect(img)
    ensures r.Err? <==> cells == 0
    ensures r.Ok? ==>
      var g := Partition(|img|, Width(img), cells).value;
      GridFits(g, |img|, Width(img)) && r.value == RowMajorTiles(img, g, g.side)
  {
    var p := Partition(|img|, Width(img), cells);
    if p.Err? {
      return Err(p.error);
    }
    var g := p.value;
    var s := g.side;
    var tiles: seq<seq<seq<P>>> := [];
    var i := 0;
    while i < s
      invariant 0 <= i <= s
      invariant tiles == RowMajorTiles(img, g, i)
    {
      ghost var row := TileRow(img, g, i);
      var j := 0;
      while j < s
        invariant 0 <= j <= s
        invariant tiles == RowMajorTiles(img, g, i) + row[..j]
      {
        tiles := tiles + [Tile(img, g, i, j)];
        assert row[..j + 1] == row[..j] + [row[j]];
        j := j + 1;
      }
      assert row[..s] == row;
      i := i + 1;
    }
    return Ok(tiles);
  }

  // ---------------------------------------------------------------------------
  // obtenerDimensionesImagen and calcularErrores

  /** `obtenerDimensionesImagen`: (height, width) of an image whose pixels
      are channel vectors. */
  function Dimensions<P>(img: seq<seq<P>>): (d: (nat, nat))
    requires IsRect(img)
    ensures HasShape(img, d.0, d.1)
  {
    (|img|, Width(img))
  }

  /** The absolute part of `calcularErrores`: the distance between the
      expected and the computed count. */
  function AbsoluteError(original: int, calculated: int): (e: nat)
    ensures e == original - calculated || e == calculated - original
    ensures e == 0 <==> original == calculated
  {
    if original >= calculated then original - calculated else calculated - original
  }

  lemma AbsoluteErrorSymmetric(a: int, b: int)
    ensures AbsoluteError(a, b) == AbsoluteError(b, a)
  {
  }
}
