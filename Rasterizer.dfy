/** The label rasterizer (`ProcesarMascaras.mostrarLabels`): one label image
    in which every mask is painted, in input order, with its 1-based
    position in the list. */
module Rasterizer {
  import opened Images

  /** The 1-based position of the last mask of `masks` that covers pixel
      (r, c), or 0 when none does: the label that painting the masks one
      after the other leaves there. */
  function LastCover(masks: seq<MaskRecord>, r: int, c: int): nat
  {
    if |masks| == 0 then 0
    else if Covers(masks[|masks| - 1].segmentation, r, c) then |masks|
    else LastCover(masks[..|masks| - 1], r, c)
  }

  /** LastCover picks the largest covering position: it is 0 exactly when no
      mask covers the pixel, and otherwise the mask it names covers it and no
      later mask does. */
  lemma {:induction false} LastCoverIsLast(masks: seq<MaskRecord>, r: int, c: int)
    ensures LastCover(masks, r, c) <= |masks|
    ensures LastCover(masks, r, c) == 0 <==>
      forall k :: 0 <= k < |masks| ==> !Covers(masks[k].segmentation, r, c)
    ensures 0 < LastCover(masks, r, c) ==>
      Covers(masks[LastCover(masks, r, c) - 1].segmentation, r, c) &&
      forall k :: LastCover(masks, r, c) <= k < |masks| ==> !Covers(masks[k].segmentation, r, c)
  {
    if |masks| > 0 {
      var init := masks[..|masks| - 1];
      LastCoverIsLast(init, r, c);
      assert forall k :: 0 <= k < |init| ==> init[k] == masks[k];
    }
  }

  /** When no two masks share a pixel, every mask keeps its whole area: the
      label of a pixel is k + 1 exactly when mask k covers it. */
  lemma LastCoverDisjoint(masks: seq<MaskRecord>, k: nat, r: int, c: int)
    requires k < |masks|
    requires forall p, q :: 0 <= p < q < |masks| ==>
      !(Covers(masks[p].segmentation, r, c) && Covers(masks[q].segmentation, r, c))
    ensures LastCover(masks, r, c) == k + 1 <==> Covers(masks[k].segmentation, r, c)
  {
    LastCoverIsLast(masks, r, c);
  }

  /** `mostrarLabels`: None for an empty list; otherwise a label image of the
      first mask's shape in which each pixel holds the 1-based position of the
      last mask covering it (0 where none does). Masks are painted in input
      order, not sorted by area. A mask whose shape differs from the first
      one's makes the boolean index raise. */
  method RenderLabels(masks: seq<MaskRecord>) returns (r: Result<Option<array2<int>>>)
    requires forall k :: 0 <= k < |masks| ==> IsRect(masks[k].segmentation)
    ensures masks == [] ==> r == Ok(None)
    ensures r.Err? <==>
      exists k :: 0 <= k < |masks| && !SameDims(masks[k].segmentation, masks[0].segmentation)
    ensures r.Err? ==> r.error == ShapeMismatch
    ensures r.Ok? && masks != [] ==>
      r.value.Some? && fresh(r.value.value) &&
      var labels := r.value.value;
      labels.Length0 == |masks[0].segmentation| && labels.Length1 == Width(masks[0].segmentation) &&
      forall y, x :: 0 <= y < labels.Length0 && 0 <= x < labels.Length1 ==>
        labels[y, x] == LastCover(masks, y, x)
  {
    if |masks| == 0 {
      return Ok(None);
    }
    var first := masks[0].segmentation;
    var height, width := |first|, Width(first);
    var labels := new int[height, width]((_, _) => 0);
    var k := 0;
    while k < |masks|
      invariant 0 <= k <= |masks|
      invariant forall q :: 0 <= q < k ==> SameDims(masks[q].segmentation, first)
      invariant forall y, x :: 0 <= y < height && 0 <= x < width ==>
        labels[y, x] == LastCover(masks[..k], y, x)
    {
      var m := masks[k].segmentation;
      if !SameDims(m, first) {
        return Err(ShapeMismatch);
      }
      forall y, x | 0 <= y < height && 0 <= x < width && m[y][x] {
        labels[y, x] := k + 1;
      }
      assert masks[..k + 1][..k] == masks[..k];
      k := k + 1;
    }
    assert masks[..k] == masks;
    return Ok(Some(labels));
  }
}
