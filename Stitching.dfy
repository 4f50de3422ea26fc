/** The coordinate stitcher (`ProcesarMascaras.superponerMascaras`): moves the
    masks found in each tile into the frame of the whole image and
    concatenates them, tile by tile in row-major order. */
module Stitching {
  import opened Images

  /** Offset (rows, columns) of tile `idx` of the grid: tile `idx` sits at
      grid row `idx / s` and grid column `idx % s`. */
  function TileOffset(g: TileGrid, idx: nat): (nat, nat)
    requires 0 < g.side
  {
    ((idx / g.side) * g.tileHeight, (idx % g.side) * g.tileWidth)
  }

  /** Every true pixel of `seg`, moved by (dy, dx), lands inside the
      `height` by `width` frame (otherwise the fancy index raises). */
  predicate Fits(seg: Mask, height: nat, width: nat, dy: nat, dx: nat)
  {
    forall y, x :: 0 <= y < |seg| && 0 <= x < |seg[y]| && seg[y][x] ==>
      y + dy < height && x + dx < width
  }

  /** `nuevaSegmentacion`: a `height` by `width` mask whose pixel (y, x) is
      set when pixel (y - dy, x - dx) of `seg` is. */
  function Shifted(seg: Mask, height: nat, width: nat, dy: nat, dx: nat): (g: Mask)
    ensures HasShape(g, height, width)
  {
    seq(height, y => seq(width, x => Covers(seg, y - dy, x - dx)))
  }

  /** Re-projection moves every true pixel by (dy, dx) and sets no other
      pixel of the global mask. */
  lemma ShiftedPixels(seg: Mask, height: nat, width: nat, dy: nat, dx: nat)
    requires Fits(seg, height, width, dy, dx)
    ensures forall y, x :: Covers(seg, y, x) ==> Covers(Shifted(seg, height, width, dy, dx), y + dy, x + dx)
    ensures forall gy, gx :: Covers(Shifted(seg, height, width, dy, dx), gy, gx) ==>
      dy <= gy && dx <= gx && Covers(seg, gy - dy, gx - dx)
  {
    var g := Shifted(seg, height, width, dy, dx);
    forall y, x | Covers(seg, y, x)
      ensures Covers(g, y + dy, x + dx)
    {
      assert y + dy < height && x + dx < width;
    }
  }

  /** `mascaraSuperpuesta`: the record with its mask re-projected; area,
      bbox, predicted IoU, seed points, stability score and crop box are the
      tile's own, so the bbox stays in tile coordinates. */
  function Relocated(m: MaskRecord, height: nat, width: nat, dy: nat, dx: nat): (r: MaskRecord)
    ensures r.segmentation == Shifted(m.segmentation, height, width, dy, dx)
    ensures r.area == m.area && r.bbox == m.bbox && r.predictedIou == m.predictedIou
    ensures r.pointCoords == m.pointCoords && r.stabilityScore == m.stabilityScore
    ensures r.cropBox == m.cropBox
  {
    m.(segmentation := Shifted(m.segmentation, height, width, dy, dx))
  }

  /** The records of one tile, each re-projected by the same offset. */
  function RelocateAll(ms: seq<MaskRecord>, height: nat, width: nat, dy: nat, dx: nat): (rs: seq<MaskRecord>)
    ensures |rs| == |ms|
  {
    if |ms| == 0 then []
    else RelocateAll(ms[..|ms| - 1], height, width, dy, dx) + [Relocated(ms[|ms| - 1], height, width, dy, dx)]
  }

  /** Record t of the re-projected tile is record t of the tile, re-projected. */
  lemma {:induction false} RelocateAllAt(ms: seq<MaskRecord>, height: nat, width: nat, dy: nat, dx: nat)
    ensures forall t :: 0 <= t < |ms| ==> RelocateAll(ms, height, width, dy, dx)[t] == Relocated(ms[t], height, width, dy, dx)
  {
    if |ms| > 0 {
      RelocateAllAt(ms[..|ms| - 1], height, width, dy, dx);
    }
  }

  /** Every mask of one tile fits at that tile's offset. */
  predicate TileFits(ms: seq<MaskRecord>, height: nat, width: nat, dy: nat, dx: nat)
  {
    forall t :: 0 <= t < |ms| ==> Fits(ms[t].segmentation, height, width, dy, dx)
  }

  /** Every mask of tiles 0 .. n-1 fits at its tile's offset. */
  predicate AllFit(perTile: seq<seq<MaskRecord>>, g: TileGrid, height: nat, width: nat, n: nat)
    requires 0 < g.side && n <= |perTile|
  {
    forall idx :: 0 <= idx < n ==>
      TileFits(perTile[idx], height, width, TileOffset(g, idx).0, TileOffset(g, idx).1)
  }

  /** The re-projected records of tiles 0 .. n-1, tile by tile. */
  function Stitched(perTile: seq<seq<MaskRecord>>, g: TileGrid, height: nat, width: nat, n: nat): seq<MaskRecord>
    requires 0 < g.side && n <= |perTile|
  {
    if n == 0 then []
    else
      var off := TileOffset(g, n - 1);
      Stitched(perTile, g, height, width, n - 1) + RelocateAll(perTile[n - 1], height, width, off.0, off.1)
  }

  /** Total number of records in tiles 0 .. n-1. */
  function TotalCount(perTile: seq<seq<MaskRecord>>, n: nat): nat
    requires n <= |perTile|
  {
    if n == 0 then 0 else TotalCount(perTile, n - 1) + |perTile[n - 1]|
  }

  lemma {:induction false} StitchedLength(perTile: seq<seq<MaskRecord>>, g: TileGrid, height: nat, width: nat, n: nat)
    requires 0 < g.side && n <= |perTile|
    ensures |Stitched(perTile, g, height, width, n)| == TotalCount(perTile, n)
  {
    if n > 0 {
      StitchedLength(perTile, g, height, width, n - 1);
    }
  }

  /** Tile idx occupies positions TotalCount(idx) .. TotalCount(idx + 1) - 1
      of the stitched list, its records re-projected and in their order. */
  lemma {:induction false} StitchedAt(perTile: seq<seq<MaskRecord>>, g: TileGrid, height: nat, width: nat, n: nat, idx: nat)
    requires 0 < g.side && idx < n <= |perTile|
    ensures TotalCount(perTile, idx) + |perTile[idx]| <= TotalCount(perTile, n)
    ensures forall t :: 0 <= t < |perTile[idx]| ==>
      TotalCount(perTile, idx) + t < |Stitched(perTile, g, height, width, n)| &&
      Stitched(perTile, g, height, width, n)[TotalCount(perTile, idx) + t] ==
        Relocated(perTile[idx][t], height, width, TileOffset(g, idx).0, TileOffset(g, idx).1)
  {
    StitchedLength(perTile, g, height, width, n);
    StitchedLength(perTile, g, height, width, n - 1);
    var whole := Stitched(perTile, g, height, width, n);
    var prev := Stitched(perTile, g, height, width, n - 1);
    var off := TileOffset(g, n - 1);
    var last := RelocateAll(perTile[n - 1], height, width, off.0, off.1);
    if idx < n - 1 {
      StitchedAt(perTile, g, height, width, n - 1, idx);
      forall t | 0 <= t < |perTile[idx]|
        ensures whole[TotalCount(perTile, idx) + t] ==
          Relocated(perTile[idx][t], height, width, TileOffset(g, idx).0, TileOffset(g, idx).1)
      {
        assert whole[TotalCount(perTile, idx) + t] == prev[TotalCount(perTile, idx) + t];
      }
    } else {
      RelocateAllAt(perTile[n - 1], height, width, off.0, off.1);
      forall t | 0 <= t < |perTile[idx]|
        ensures whole[TotalCount(perTile, idx) + t] == Relocated(perTile[idx][t], height, width, off.0, off.1)
      {
        assert whole[TotalCount(perTile, idx) + t] == last[t];
      }
    }
  }

  /** The stitched list holds every record of tiles 0 .. n-1 exactly once, in
      tile order and then in the tile's own order: tile idx occupies positions
      TotalCount(idx) .. TotalCount(idx + 1) - 1, and record t of tile idx sits
      at position TotalCount(idx) + t, moved by its tile's offset. */
  lemma StitchedLayout(perTile: seq<seq<MaskRecord>>, g: TileGrid, height: nat, width: nat, n: nat)
    requires 0 < g.side && n <= |perTile|
    ensures |Stitched(perTile, g, height, width, n)| == TotalCount(perTile, n)
    ensures forall idx :: 0 <= idx < n ==> TotalCount(perTile, idx) + |perTile[idx]| <= TotalCount(perTile, n)
    ensures forall idx, t :: 0 <= idx < n && 0 <= t < |perTile[idx]| ==>
      Stitched(perTile, g, height, width, n)[TotalCount(perTile, idx) + t] ==
        Relocated(perTile[idx][t], height, width, TileOffset(g, idx).0, TileOffset(g, idx).1)
  {
    StitchedLength(perTile, g, height, width, n);
    forall idx | 0 <= idx < n
      ensures TotalCount(perTile, idx) + |perTile[idx]| <= TotalCount(perTile, n)
      ensures forall t :: 0 <= t < |perTile[idx]| ==>
        Stitched(perTile, g, height, width, n)[TotalCount(perTile, idx) + t] ==
          Relocated(perTile[idx][t], height, width, TileOffset(g, idx).0, TileOffset(g, idx).1)
    {
      StitchedAt(perTile, g, height, width, n, idx);
    }
  }

  /** A mask shaped like a tile always fits at the offset of any of the
      `s * s` tiles, because `s` bands of the tile size fit in the image:
      stitching what the oracle returns for the cropped tiles never raises. */
  lemma TileShapedFits(seg: Mask, g: TileGrid, height: nat, width: nat, idx: nat)
    requires 0 < g.side && g.side * g.tileHeight <= height && g.side * g.tileWidth <= width
    requires idx < g.side * g.side && HasShape(seg, g.tileHeight, g.tileWidth)
    ensures Fits(seg, height, width, TileOffset(g, idx).0, TileOffset(g, idx).1)
  {
    RowMajorInverse(idx, g.side);
    BandInside(idx / g.side, g.side, g.tileHeight);
    BandInside(idx % g.side, g.side, g.tileWidth);
  }

  /** The loop over one tile's records (`for mascara in mascaras`): each
      record re-projected by the tile's offset, in order; raises as soon as
      one has a true pixel that would land outside the image. */
  method RelocateTile(masks: seq<MaskRecord>, height: nat, width: nat, dy: nat, dx: nat)
    returns (r: Result<seq<MaskRecord>>)
    ensures r.Ok? <==> TileFits(masks, height, width, dy, dx)
    ensures r.Ok? ==> r.value == RelocateAll(masks, height, width, dy, dx)
    ensures r.Err? ==> r.error == PixelOutOfBounds
  {
    var out: seq<MaskRecord> := [];
    var t := 0;
    while t < |masks|
      invariant 0 <= t <= |masks|
      invariant TileFits(masks[..t], height, width, dy, dx)
      invariant out == RelocateAll(masks[..t], height, width, dy, dx)
    {
      var m := masks[t];
      if !Fits(m.segmentation, height, width, dy, dx) {
        assert !TileFits(masks, height, width, dy, dx);
        return Err(PixelOutOfBounds);
      }
      out := out + [Relocated(m, height, width, dy, dx)];
      assert masks[..t + 1][..t] == masks[..t];
      t := t + 1;
    }
    assert masks[..t] == masks;
    return Ok(out);
  }

  /** `superponerMascaras`: with `s = isqrt(len(perTile))`, the records of
      the first `s * s` tile lists, re-projected by their tile's offset and
      concatenated in row-major tile order. Raises on an empty tile list
      (division by zero) and when a true pixel would land outside the image. */
  method Superimpose(perTile: seq<seq<MaskRecord>>, height: nat, width: nat)
    returns (r: Result<seq<MaskRecord>>)
    ensures r.Err? <==>
      |perTile| == 0 ||
      var g := Partition(height, width, |perTile|).value;
      !AllFit(perTile, g, height, width, g.side * g.side)
    ensures r.Err? ==> r.error == (if |perTile| == 0 then ZeroTileSide else PixelOutOfBounds)
    ensures r.Ok? ==>
      var g := Partition(height, width, |perTile|).value;
      r.value == Stitched(perTile, g, height, width, g.side * g.side)
  {
    var p := Partition(height, width, |perTile|);
    if p.Err? {
      return Err(p.error);
    }
    var g := p.value;
    var s, h, w := g.side, g.tileHeight, g.tileWidth;
    var out: seq<MaskRecord> := [];
    var idx := 0;
    var i := 0;
    while i < s
      invariant 0 <= i <= s
      invariant idx == i * s <= s * s
      invariant AllFit(perTile, g, height, width, idx)
      invariant out == Stitched(perTile, g, height, width, idx)
    {
      BandInside(i, s, s);
      var j := 0;
      while j < s
        invariant 0 <= j <= s
        invariant idx == i * s + j <= s * s
        invariant AllFit(perTile, g, height, width, idx)
        invariant out == Stitched(perTile, g, height, width, idx)
      {
        RowMajor(i, j, s);
        assert TileOffset(g, idx) == (i * h, j * w);
        var dy, dx := i * h, j * w;
        var moved := RelocateTile(perTile[idx], height, width, dy, dx);
        if moved.Err? {
          return Err(moved.error);
        }
        out := out + moved.value;
        idx := idx + 1;
        j := j + 1;
      }
      i := i + 1;
    }
    return Ok(out);
  }
}
