/** How the tiled path fits together: the masks the oracle returns for the
    cropped tiles are tile-shaped, so stitching them never raises, every
    re-projected pixel falls in the sector its tile is numbered with, and the
    centroid of a re-projected mask stays inside its tile. */
module Pipeline {
  import opened Images
  import opened Utils
  import opened Stitching
  import opened Centroids

  /** Every mask of each of the `s * s` tiles has the tile's size. */
  predicate TileShaped(perTile: seq<seq<MaskRecord>>, g: TileGrid)
    requires g.side * g.side <= |perTile|
  {
    forall idx, t :: 0 <= idx < g.side * g.side && 0 <= t < |perTile[idx]| ==>
      HasShape(perTile[idx][t].segmentation, g.tileHeight, g.tileWidth)
  }

  /** Stitching tile-shaped masks over the grid the crop used never raises. */
  lemma TileShapedMasksFit(perTile: seq<seq<MaskRecord>>, g: TileGrid, height: nat, width: nat)
    requires GridFits(g, height, width) && g.side * g.side <= |perTile| && TileShaped(perTile, g)
    ensures AllFit(perTile, g, height, width, g.side * g.side)
  {
    forall idx | 0 <= idx < g.side * g.side
      ensures TileFits(perTile[idx], height, width, TileOffset(g, idx).0, TileOffset(g, idx).1)
    {
      forall t | 0 <= t < |perTile[idx]|
        ensures Fits(perTile[idx][t].segmentation, height, width, TileOffset(g, idx).0, TileOffset(g, idx).1)
      {
        TileShapedFits(perTile[idx][t].segmentation, g, height, width, idx);
      }
    }
  }

  /** A true pixel (r, c) of a tile-shaped mask found in tile (i, j) is, once
      re-projected, the image pixel (i * h + r, j * w + c), and the sector
      overlay numbers that pixel `i * s + j + 1`: the tile's own number. */
  lemma RelocatedPixelInSector(seg: Mask, g: TileGrid, height: nat, width: nat, i: nat, j: nat, r: nat, c: nat)
    requires GridFits(g, height, width) && i < g.side && j < g.side
    requires HasShape(seg, g.tileHeight, g.tileWidth) && Covers(seg, r, c)
    ensures var off := TileOffset(g, i * g.side + j);
      off == (i * g.tileHeight, j * g.tileWidth) &&
      Covers(Shifted(seg, height, width, off.0, off.1), i * g.tileHeight + r, j * g.tileWidth + c) &&
      SectorValue(g, true, i * g.tileHeight + r, j * g.tileWidth + c) == i * g.side + j + 1
  {
    RowMajor(i, j, g.side);
    TileShapedFits(seg, g, height, width, i * g.side + j);
    ShiftedPixels(seg, height, width, i * g.tileHeight, j * g.tileWidth);
    SectorOfTilePixel(g, i, j, r, c);
  }

  /** The centroid of a non-empty tile-shaped mask re-projected from tile
      (i, j) lies inside that tile of the image. */
  lemma CentroidStaysInTile(seg: Mask, g: TileGrid, height: nat, width: nat, i: nat, j: nat)
    requires GridFits(g, height, width) && i < g.side && j < g.side
    requires HasShape(seg, g.tileHeight, g.tileWidth)
    requires PixelCount(Shifted(seg, height, width, i * g.tileHeight, j * g.tileWidth)) > 0
    ensures var p := Centroid(Shifted(seg, height, width, i * g.tileHeight, j * g.tileWidth));
      i * g.tileHeight <= p.1 < (i + 1) * g.tileHeight &&
      j * g.tileWidth <= p.0 < (j + 1) * g.tileWidth
  {
    var dy, dx := i * g.tileHeight, j * g.tileWidth;
    var moved := Shifted(seg, height, width, dy, dx);
    BandInside(i, g.side, g.tileHeight);
    BandInside(j, g.side, g.tileWidth);
    assert InBox(moved, dy, dy + g.tileHeight, dx, dx + g.tileWidth) by {
      forall y, x | Covers(moved, y, x)
        ensures dy <= y < dy + g.tileHeight && dx <= x < dx + g.tileWidth
      {
        assert Covers(seg, y - dy, x - dx);
      }
    }
    CentroidInBox(moved, dy, dy + g.tileHeight, dx, dx + g.tileWidth);
  }
}
