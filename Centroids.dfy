/** The centroid extractor (`ProcesarMascaras.pintarCentroidesMascaras`): one
    integer point per mask, the truncated mean position of its true pixels,
    in the order of the masks. */
module Centroids {
  import opened Images

  /** Sum of the column indices of the true cells of a row. */
  function RowColumnSum(row: seq<bool>): nat
  {
    if |row| == 0 then 0
    else RowColumnSum(row[..|row| - 1]) + (if row[|row| - 1] then |row| - 1 else 0)
  }

  /** Sum of the row indices of the true pixels of a mask. */
  function RowIndexSum(m: Mask): nat
  {
    if |m| == 0 then 0
    else RowIndexSum(m[..|m| - 1]) + (|m| - 1) * RowCount(m[|m| - 1])
  }

  /** Sum of the column indices of the true pixels of a mask. */
  function ColumnIndexSum(m: Mask): nat
  {
    if |m| == 0 then 0
    else ColumnIndexSum(m[..|m| - 1]) + RowColumnSum(m[|m| - 1])
  }

  /** `center_of_mass` followed by `int`: the mean column and the mean row of
      the true pixels, truncated (both means are non-negative, so truncation
      is the floor), returned as (x, y). */
  function Centroid(m: Mask): (nat, nat)
    requires PixelCount(m) > 0
  {
    (ColumnIndexSum(m) / PixelCount(m), RowIndexSum(m) / PixelCount(m))
  }

  /** Every true pixel lies in rows top .. bottom-1 and columns left .. right-1. */
  ghost predicate InBox(m: Mask, top: nat, bottom: nat, left: nat, right: nat)
  {
    forall y, x :: Covers(m, y, x) ==> top <= y < bottom && left <= x < right
  }

  /** When the true cells of a row lie in columns left .. right-1, their
      column sum lies between left and right-1 times their number. */
  lemma {:induction false} RowColumnSumBounds(row: seq<bool>, left: nat, right: nat)
    requires forall c :: 0 <= c < |row| && row[c] ==> left <= c < right
    ensures left * RowCount(row) <= RowColumnSum(row)
    ensures RowColumnSum(row) + RowCount(row) <= right * RowCount(row)
  {
    if |row| > 0 {
      var init := row[..|row| - 1];
      forall c | 0 <= c < |init| && init[c] ensures left <= c < right {
        assert row[c];
      }
      RowColumnSumBounds(init, left, right);
      var k := RowCount(init);
      if row[|row| - 1] {
        assert left <= |row| - 1 < right;
        assert RowCount(row) == k + 1 && RowColumnSum(row) == RowColumnSum(init) + (|row| - 1);
        Distrib(left, k, 1);
        Distrib(right, k, 1);
      } else {
        assert RowCount(row) == k && RowColumnSum(row) == RowColumnSum(init);
      }
    }
  }

  /** The row index sum of a mask whose true pixels lie in rows
      top .. bottom-1 is bracketed by top and bottom-1 times the pixel count. */
  lemma {:induction false} RowIndexSumBounds(m: Mask, top: nat, bottom: nat)
    requires forall y, x :: Covers(m, y, x) ==> top <= y < bottom
    ensures top * PixelCount(m) <= RowIndexSum(m)
    ensures RowIndexSum(m) + PixelCount(m) <= bottom * PixelCount(m)
  {
    if |m| > 0 {
      var init, last := m[..|m| - 1], m[|m| - 1];
      forall y, x | Covers(init, y, x) ensures top <= y < bottom {
        assert Covers(m, y, x);
      }
      RowIndexSumBounds(init, top, bottom);
      var k := RowCount(last);
      if k > 0 {
        RowCountPositive(last);
        var c :| 0 <= c < |last| && last[c];
        assert Covers(m, |m| - 1, c);
        MulMono(top, |m| - 1, k);
        MulMono(|m|, bottom, k);
      }
      Distrib(top, PixelCount(init), k);
      Distrib(bottom, PixelCount(init), k);
      assert |m| * k == (|m| - 1) * k + k;
    }
  }

  /** The column index sum of a mask whose true pixels lie in columns
      left .. right-1 is bracketed by left and right-1 times the pixel count. */
  lemma {:induction false} ColumnIndexSumBounds(m: Mask, left: nat, right: nat)
    requires forall y, x :: Covers(m, y, x) ==> left <= x < right
    ensures left * PixelCount(m) <= ColumnIndexSum(m)
    ensures ColumnIndexSum(m) + PixelCount(m) <= right * PixelCount(m)
  {
    if |m| > 0 {
      var init, last := m[..|m| - 1], m[|m| - 1];
      forall y, x | Covers(init, y, x) ensures left <= x < right {
        assert Covers(m, y, x);
      }
      ColumnIndexSumBounds(init, left, right);
      forall c | 0 <= c < |last| && last[c] ensures left <= c < right {
        assert Covers(m, |m| - 1, c);
      }
      RowColumnSumBounds(last, left, right);
      Distrib(left, PixelCount(init), RowCount(last));
      Distrib(right, PixelCount(init), RowCount(last));
    }
  }

  lemma Distrib(a: nat, x: nat, y: nat)
    ensures a * (x + y) == a * x + a * y
  {
  }

  /** Floor division of a sum bracketed by n times [lo, hi) lands in [lo, hi). */
  lemma MeanBounds(sum: nat, n: nat, lo: nat, hi: nat)
    requires 0 < n && lo * n <= sum && sum + n <= hi * n
    ensures lo <= sum / n < hi
  {
    var q := sum / n;
    assert q * n <= sum < q * n + n;
    if q < lo {
      MulMono(q + 1, lo, n);
    }
    if q >= hi {
      MulMono(hi, q, n);
    }
  }

  /** The centroid of a non-empty mask lies in any box that holds all of its
      true pixels: a mask inside tile (i, j) of the stitched image has its
      point inside that tile, and every point lies inside the image. */
  lemma CentroidInBox(m: Mask, top: nat, bottom: nat, left: nat, right: nat)
    requires PixelCount(m) > 0 && InBox(m, top, bottom, left, right)
    ensures top <= Centroid(m).1 < bottom && left <= Centroid(m).0 < right
  {
    RowIndexSumBounds(m, top, bottom);
    ColumnIndexSumBounds(m, left, right);
    MeanBounds(RowIndexSum(m), PixelCount(m), top, bottom);
    MeanBounds(ColumnIndexSum(m), PixelCount(m), left, right);
  }

  /** The point image's size and the list of points. */
  datatype CentroidSet = CentroidSet(height: nat, width: nat, points: seq<(nat, nat)>)

  /** `pintarCentroidesMascaras`: a point image of the first mask's size and
      one centroid per mask, index-aligned with the masks. Raises on an empty
      list (`mascaras[0]`) and on a mask without a true pixel (the centre of
      mass is NaN and `int` rejects it). */
  method CentroidPoints(masks: seq<MaskRecord>) returns (r: Result<CentroidSet>)
    ensures r.Err? <==>
      masks == [] || exists k :: 0 <= k < |masks| && PixelCount(masks[k].segmentation) == 0
    ensures r.Err? ==> r.error == (if masks == [] then EmptyInput else EmptyMask)
    ensures r.Ok? ==>
      r.value.height == |masks[0].segmentation| && r.value.width == Width(masks[0].segmentation) &&
      |r.value.points| == |masks| &&
      forall k :: 0 <= k < |masks| ==> r.value.points[k] == Centroid(masks[k].segmentation)
  {
    if |masks| == 0 {
      return Err(EmptyInput);
    }
    var height, width := |masks[0].segmentation|, Width(masks[0].segmentation);
    var points: seq<(nat, nat)> := [];
    var k := 0;
    while k < |masks|
      invariant 0 <= k <= |masks|
      invariant forall q :: 0 <= q < k ==> PixelCount(masks[q].segmentation) > 0
      invariant |points| == k
      invariant forall q :: 0 <= q < k ==> points[q] == Centroid(masks[q].segmentation)
    {
      var seg := masks[k].segmentation;
      if PixelCount(seg) == 0 {
        return Err(EmptyMask);
      }
      points := points + [Centroid(seg)];
      k := k + 1;
    }
    return Ok(CentroidSet(height, width, points));
  }
}
