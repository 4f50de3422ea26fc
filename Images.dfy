/** Shared vocabulary of the tiled segmentation pipeline: the exceptions the
    modelled code can raise, dense 2-D grids, mask records, and the square
    tile grid that partitioning, cropping and stitching all derive from the
    requested cell count. */
module Images {

  /** The exceptions the modelled Python code can raise, as values. */
  datatype Error =
    | ZeroTileSide      // floor division by isqrt(N) when isqrt(N) == 0
    | ShapeMismatch     // a boolean index whose shape differs from the indexed array
    | EmptyInput        // mascaras[0] on an empty list
    | EmptyMask         // centre of mass of a mask without any true pixel
    | PixelOutOfBounds  // a re-projected pixel outside the global image

  datatype Result<T> = Ok(value: T) | Err(error: Error)

  /** A value or Python's `None`. */
  datatype Option<T> = None | Some(value: T)

  /** Number of columns of a grid: the length of its first row (0 for no rows). */
  function Width<T>(g: seq<seq<T>>): nat
  {
    if |g| == 0 then 0 else |g[0]|
  }

  /** The grid is `h` rows of `w` cells each. */
  predicate HasShape<T>(g: seq<seq<T>>, h: nat, w: nat)
  {
    |g| == h && forall r :: 0 <= r < |g| ==> |g[r]| == w
  }

  /** Every row has the same length, as for any 2-D numpy array. */
  predicate IsRect<T>(g: seq<seq<T>>)
  {
    HasShape(g, |g|, Width(g))
  }

  /** Same height and same width. */
  predicate SameDims<T, U>(a: seq<seq<T>>, b: seq<seq<U>>)
  {
    |a| == |b| && Width(a) == Width(b)
  }

  /** A boolean occupancy mask. */
  type Mask = seq<seq<bool>>

  /** Whether pixel (r, c) lies in the mask and is set. */
  predicate Covers(m: Mask, r: int, c: int)
  {
    0 <= r < |m| && 0 <= c < |m[r]| && m[r][c]
  }

  /** Number of true cells of a row. */
  function RowCount(row: seq<bool>): nat
  {
    if |row| == 0 then 0
    else RowCount(row[..|row| - 1]) + (if row[|row| - 1] then 1 else 0)
  }

  /** Number of true pixels of a mask. */
  function PixelCount(m: Mask): nat
  {
    if |m| == 0 then 0
    else PixelCount(m[..|m| - 1]) + RowCount(m[|m| - 1])
  }

  /** A row has a true cell exactly when its count is positive. */
  lemma {:induction false} RowCountPositive(row: seq<bool>)
    ensures RowCount(row) > 0 <==> exists c :: 0 <= c < |row| && row[c]
  {
    if |row| > 0 {
      var init := row[..|row| - 1];
      RowCountPositive(init);
      if exists c :: 0 <= c < |init| && init[c] {
        var c :| 0 <= c < |init| && init[c];
        assert row[c];
      }
      if exists c :: 0 <= c < |row| && row[c] {
        var c :| 0 <= c < |row| && row[c];
        if c < |init| {
          assert init[c];
        }
      }
    }
  }

  /** A mask has a true pixel exactly when its count is positive
      (`pixels.size != 0`). */
  lemma {:induction false} PixelCountPositive(m: Mask)
    ensures PixelCount(m) > 0 <==> exists y, x :: Covers(m, y, x)
  {
    if |m| > 0 {
      var init, last := m[..|m| - 1], m[|m| - 1];
      PixelCountPositive(init);
      RowCountPositive(last);
      if exists y, x :: Covers(init, y, x) {
        var y, x :| Covers(init, y, x);
        assert Covers(m, y, x);
      }
      if exists c :: 0 <= c < |last| && last[c] {
        var c :| 0 <= c < |last| && last[c];
        assert Covers(m, |m| - 1, c);
      }
      if exists y, x :: Covers(m, y, x) {
        var y, x :| Covers(m, y, x);
        if y < |init| {
          assert Covers(init, y, x);
        } else {
          assert last[x];
        }
      }
    }
  }

  /** Axis-aligned box (x, y, width, height), passed through untouched. */
  type Box = (int, int, int, int)

  /** One detected region as the oracle reports it. Only `segmentation` and
      `area` are interpreted by the pipeline; the other fields are copied. */
  datatype MaskRecord = MaskRecord(
    segmentation: Mask,
    area: int,
    bbox: Box,
    predictedIou: real,
    pointCoords: seq<(real, real)>,
    stabilityScore: real,
    cropBox: Box)

  /** `int(math.sqrt(n))` for the cell counts the pipeline is asked for:
      the integer square root, floored. */
  function Isqrt(n: nat): (s: nat)
    ensures s * s <= n < (s + 1) * (s + 1)
  {
    if n == 0 then 0
    else
      var r := Isqrt(n - 1);
      if (r + 1) * (r + 1) <= n then
        assert n < (r + 2) * (r + 2) by {
          assert (r + 2) * (r + 2) == (r + 1) * (r + 1) + 2 * r + 3;
        }
        r + 1
      else r
  }

  /** Side length and tile size of the square grid over an image. */
  datatype TileGrid = TileGrid(side: nat, tileHeight: nat, tileWidth: nat)

  /** `raiz = isqrt(N)`, `alturaCuadrante = H // raiz`,
      `anchuraCuadrante = W // raiz`; the floor division raises when the
      side is 0, which happens exactly when no cell is requested. */
  function Partition(height: nat, width: nat, cells: nat): (r: Result<TileGrid>)
    ensures r.Err? <==> cells == 0
    ensures r.Err? ==> r.error == ZeroTileSide
    ensures r.Ok? ==>
      var g := r.value;
      0 < g.side && g.side * g.side <= cells < (g.side + 1) * (g.side + 1) &&
      g.side * g.tileHeight <= height < g.side * (g.tileHeight + 1) &&
      g.side * g.tileWidth <= width < g.side * (g.tileWidth + 1)
  {
    var s := Isqrt(cells);
    if s == 0 then Err(ZeroTileSide)
    else
      var h, w := height / s, width / s;
      FloorDivBounds(height, s, h);
      FloorDivBounds(width, s, w);
      Ok(TileGrid(s, h, w))
  }

  /** The quotient of a floor division brackets the dividend. */
  lemma FloorDivBounds(x: nat, d: nat, q: nat)
    requires 0 < d && q == x / d
    ensures d * q <= x < d * (q + 1)
  {
  }

  /** Multiplication by a natural number is monotonic. */
  lemma MulMono(a: nat, b: nat, k: nat)
    requires a <= b
    ensures a * k <= b * k
  {
  }

  /** Whether row `r` falls in band `i` of bands of height `h`. */
  lemma BandOf(r: nat, h: nat, i: nat)
    requires 0 < h
    ensures r / h == i <==> i * h <= r < (i + 1) * h
  {
    var q := r / h;
    FloorDivBounds(r, h, q);
    if q < i {
      MulMono(q + 1, i, h);
    } else if q > i {
      MulMono(i + 1, q, h);
    }
  }

  /** Rows below `s` bands of height `h` are exactly the rows before `s * h`. */
  lemma BelowBands(r: nat, h: nat, s: nat)
    requires 0 < h
    ensures r / h < s <==> r < s * h
  {
    var q := r / h;
    FloorDivBounds(r, h, q);
    if q < s {
      MulMono(q + 1, s, h);
    } else {
      MulMono(s, q, h);
    }
  }

  /** Band `i` of `s` bands of height `h` ends inside `s * h`. */
  lemma BandInside(i: nat, s: nat, h: nat)
    requires i < s
    ensures (i + 1) * h == i * h + h <= s * h
  {
    assert s * h == (i + 1) * h + (s - i - 1) * h;
  }

  /** Row-major numbering of an `s` by `s` grid: cell (i, j) is `i * s + j`,
      and division and remainder by `s` recover the row and the column. */
  lemma RowMajor(i: nat, j: nat, s: nat)
    requires i < s && j < s
    ensures i * s + j < s * s
    ensures (i * s + j) / s == i && (i * s + j) % s == j
  {
    BandInside(i, s, s);
    BandOf(i * s + j, s, i);
  }

  /** Every index below `s * s` names a cell of the `s` by `s` grid. */
  lemma RowMajorInverse(t: nat, s: nat)
    requires t < s * s
    ensures 0 < s && t / s < s && t % s < s
  {
    BelowBands(t, s, s);
  }
}
