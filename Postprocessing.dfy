/** The postprocessing filter (`ProcesarMascaras.procesarMascaras`): masks
    sorted by area, largest first, lose their dark pixels, are opened, and are
    kept when their area lies strictly between the two size bounds; kept masks
    are painted into the caller's label image with their 1-based position in
    the sorted list. */
module Postprocessing {
  import opened Images

  // ---------------------------------------------------------------------------
  // sorted(mascarasInfo, key=area, reverse=True): a stable sort, largest first

  /** Insert `m` before the first record whose area is not larger than its own. */
  function InsertByArea(m: MaskRecord, s: seq<MaskRecord>): seq<MaskRecord>
  {
    if |s| == 0 || s[0].area <= m.area then [m] + s
    else [s[0]] + InsertByArea(m, s[1..])
  }

  /** The records ordered by area, largest first; records of equal area keep
      their input order, as Python's stable `sorted` with `reverse=True` does. */
  function SortByArea(ms: seq<MaskRecord>): seq<MaskRecord>
  {
    if |ms| == 0 then [] else InsertByArea(ms[0], SortByArea(ms[1..]))
  }

  predicate DescendingByArea(s: seq<MaskRecord>)
  {
    forall p, q :: 0 <= p < q < |s| ==> s[p].area >= s[q].area
  }

  /** The records of area `a`, in order. */
  function WithArea(s: seq<MaskRecord>, a: int): seq<MaskRecord>
  {
    if |s| == 0 then []
    else (if s[0].area == a then [s[0]] else []) + WithArea(s[1..], a)
  }

  /** Inserting adds exactly one record and starts with it or with the old head. */
  lemma {:induction false} InsertByAreaPermutes(m: MaskRecord, s: seq<MaskRecord>)
    ensures multiset(InsertByArea(m, s)) == multiset(s) + multiset{m}
    ensures |InsertByArea(m, s)| == |s| + 1
    ensures InsertByArea(m, s)[0] == m || (|s| > 0 && InsertByArea(m, s)[0] == s[0])
  {
    if |s| > 0 && s[0].area > m.area {
      var rest := InsertByArea(m, s[1..]);
      InsertByAreaPermutes(m, s[1..]);
      assert InsertByArea(m, s) == [s[0]] + rest;
      assert multiset(s) == multiset{s[0]} + multiset(s[1..]) by {
        assert s == [s[0]] + s[1..];
      }
    }
  }

  /** Inserting into a list ordered largest first keeps it ordered. */
  lemma {:induction false} InsertByAreaDescending(m: MaskRecord, s: seq<MaskRecord>)
    requires DescendingByArea(s)
    ensures DescendingByArea(InsertByArea(m, s))
  {
    InsertByAreaPermutes(m, s);
    var r := InsertByArea(m, s);
    if |s| > 0 && s[0].area > m.area {
      var rest := InsertByArea(m, s[1..]);
      assert DescendingByArea(s[1..]);
      InsertByAreaDescending(m, s[1..]);
      InsertByAreaPermutes(m, s[1..]);
      assert r == [s[0]] + rest;
      forall p, q | 0 <= p < q < |r| ensures r[p].area >= r[q].area {
        if p == 0 {
          assert r[q] == rest[q - 1];
          assert rest[q - 1] in multiset(s[1..]) + multiset{m};
          if rest[q - 1] != m {
            assert rest[q - 1] in s[1..];
          }
        } else {
          assert r[p] == rest[p - 1] && r[q] == rest[q - 1];
        }
      }
    } else {
      forall p, q | 0 <= p < q < |r| ensures r[p].area >= r[q].area {
        if p > 0 {
          assert r[p] == s[p - 1] && r[q] == s[q - 1];
        } else if q > 1 {
          assert r[q] == s[q - 1];
        }
      }
    }
  }

  /** Inserting `m` adds `m` in front of the records of its own area and
      leaves the records of every other area as they were. */
  lemma {:induction false} InsertByAreaStable(m: MaskRecord, s: seq<MaskRecord>, a: int)
    ensures WithArea(InsertByArea(m, s), a) == (if m.area == a then [m] else []) + WithArea(s, a)
  {
    var own: seq<MaskRecord> := if m.area == a then [m] else [];
    if |s| == 0 || s[0].area <= m.area {
      var t := [m] + s;
      assert t[0] == m && t[1..] == s;
      assert WithArea(t, a) == own + WithArea(s, a);
    } else {
      var rest := InsertByArea(m, s[1..]);
      var t := [s[0]] + rest;
      assert InsertByArea(m, s) == t;
      assert t[0] == s[0] && t[1..] == rest;
      var head: seq<MaskRecord> := if s[0].area == a then [s[0]] else [];
      assert WithArea(t, a) == head + WithArea(rest, a);
      assert WithArea(s, a) == head + WithArea(s[1..], a);
      InsertByAreaStable(m, s[1..], a);
      assert WithArea(rest, a) == own + WithArea(s[1..], a);
      if s[0].area == a {
        assert own == [];
        assert own + WithArea(s[1..], a) == WithArea(s[1..], a);
      } else {
        assert head == [];
        assert head + WithArea(rest, a) == WithArea(rest, a);
        assert head + WithArea(s[1..], a) == WithArea(s[1..], a);
      }
    }
  }

  /** Sorting by area yields a permutation of the input. */
  lemma {:induction false} SortByAreaPermutes(ms: seq<MaskRecord>)
    ensures multiset(SortByArea(ms)) == multiset(ms)
    ensures |SortByArea(ms)| == |ms|
  {
    if |ms| > 0 {
      var rest := SortByArea(ms[1..]);
      SortByAreaPermutes(ms[1..]);
      InsertByAreaPermutes(ms[0], rest);
      assert multiset(ms) == multiset{ms[0]} + multiset(ms[1..]) by {
        assert ms == [ms[0]] + ms[1..];
      }
    }
  }

  /** Sorting by area orders the records largest first. */
  lemma {:induction false} SortByAreaDescending(ms: seq<MaskRecord>)
    ensures DescendingByArea(SortByArea(ms))
  {
    if |ms| > 0 {
      SortByAreaDescending(ms[1..]);
      InsertByAreaDescending(ms[0], SortByArea(ms[1..]));
    }
  }

  /** Sorting by area is stable: the records of any one area come out in
      their input order. */
  lemma {:induction false} SortByAreaStable(ms: seq<MaskRecord>, a: int)
    ensures WithArea(SortByArea(ms), a) == WithArea(ms, a)
  {
    if |ms| > 0 {
      SortByAreaStable(ms[1..], a);
      InsertByAreaStable(ms[0], SortByArea(ms[1..]), a);
    }
  }

  // ---------------------------------------------------------------------------
  // The per-mask test

  /** The filter's inputs besides the masks: the single-channel intensity
      image, the two size bounds (the upper one is a float fraction of the
      image size), the intensity threshold, and the morphological opening
      with a disk of radius 3, which is a library call and stays abstract. */
  datatype Criteria = Criteria(
    intensity: seq<seq<real>>,
    minSize: int,
    maxSize: real,
    minIntensity: int,
    opening: Mask -> Mask)

  /** Pixel (y, x) of the intensity image is not darker than the threshold;
      a pixel outside the intensity image never counts as bright. */
  predicate Bright(cr: Criteria, y: int, x: int)
  {
    0 <= y < |cr.intensity| && 0 <= x < |cr.intensity[y]| &&
    !(cr.intensity[y][x] < cr.minIntensity as real)
  }

  /** Row y of a segmentation without its dark pixels. */
  function WorkingRow(row: seq<bool>, y: nat, cr: Criteria): (r: seq<bool>)
    ensures |r| == |row|
  {
    if |row| == 0 then []
    else WorkingRow(row[..|row| - 1], y, cr) + [row[|row| - 1] && Bright(cr, y, |row| - 1)]
  }

  /** `mnarray` after `mnarray[imagenOriginal < min_intensity] = False`: the
      segmentation without its pixels darker than the threshold. */
  function WorkingMask(seg: Mask, cr: Criteria): (w: Mask)
    ensures |w| == |seg|
  {
    if |seg| == 0 then []
    else WorkingMask(seg[..|seg| - 1], cr) + [WorkingRow(seg[|seg| - 1], |seg| - 1, cr)]
  }

  lemma {:induction false} WorkingRowAt(row: seq<bool>, y: nat, cr: Criteria)
    ensures forall x :: 0 <= x < |row| ==> WorkingRow(row, y, cr)[x] == (row[x] && Bright(cr, y, x))
  {
    if |row| > 0 {
      WorkingRowAt(row[..|row| - 1], y, cr);
    }
  }

  lemma {:induction false} WorkingMaskAt(seg: Mask, cr: Criteria)
    ensures forall y :: 0 <= y < |seg| ==> WorkingMask(seg, cr)[y] == WorkingRow(seg[y], y, cr)
  {
    if |seg| > 0 {
      WorkingMaskAt(seg[..|seg| - 1], cr);
    }
  }

  /** Some pixel of the segmentation is at least as bright as the threshold. */
  predicate HasBrightPixel(seg: Mask, cr: Criteria)
  {
    exists y, x | 0 <= y < |seg| && 0 <= x < |seg[y]| :: seg[y][x] && Bright(cr, y, x)
  }

  /** The mask that is painted: the opened working mask. */
  function Opened(m: MaskRecord, cr: Criteria): Mask
  {
    cr.opening(WorkingMask(m.segmentation, cr))
  }

  /** A record survives exactly when one of its pixels is at least as bright
      as the threshold and `min_size < area < max_size`: both bounds are
      strict, and the stored area is used, not the pixel count after the
      exclusion or the opening. */
  predicate Accepts(m: MaskRecord, cr: Criteria)
  {
    HasBrightPixel(m.segmentation, cr) &&
    cr.minSize < m.area && (m.area as real) < cr.maxSize
  }

  /** The intensity exclusion keeps only pixels of the segmentation that are
      at least as bright as the threshold, and applying it again changes
      nothing: exclusion never re-includes a pixel. */
  lemma WorkingMaskMeaning(seg: Mask, cr: Criteria)
    ensures forall y, x :: Covers(WorkingMask(seg, cr), y, x) <==> Covers(seg, y, x) && Bright(cr, y, x)
    ensures WorkingMask(WorkingMask(seg, cr), cr) == WorkingMask(seg, cr)
  {
    var w := WorkingMask(seg, cr);
    WorkingMaskAt(seg, cr);
    WorkingMaskAt(w, cr);
    forall y | 0 <= y < |seg|
      ensures |w[y]| == |seg[y]|
      ensures forall x :: 0 <= x < |seg[y]| ==> w[y][x] == (seg[y][x] && Bright(cr, y, x))
      ensures WorkingRow(w[y], y, cr) == w[y]
    {
      WorkingRowAt(seg[y], y, cr);
      WorkingRowAt(w[y], y, cr);
    }
    assert WorkingMask(w, cr) == w;
  }

  /** The working mask keeps a pixel exactly when the segmentation has a
      pixel at least as bright as the threshold. */
  lemma WorkingMaskNonEmpty(seg: Mask, cr: Criteria)
    ensures PixelCount(WorkingMask(seg, cr)) > 0 <==> HasBrightPixel(seg, cr)
  {
    var w := WorkingMask(seg, cr);
    WorkingMaskMeaning(seg, cr);
    PixelCountPositive(w);
    if exists y, x :: Covers(w, y, x) {
      var y, x :| Covers(w, y, x);
      assert seg[y][x] && Bright(cr, y, x);
    }
    if HasBrightPixel(seg, cr) {
      var y, x :| 0 <= y < |seg| && 0 <= x < |seg[y]| && seg[y][x] && Bright(cr, y, x);
      assert Covers(w, y, x);
    }
  }

  // ---------------------------------------------------------------------------
  // What the loop over the sorted records produces

  /** Whether each sorted record is kept. */
  function Verdicts(sorted: seq<MaskRecord>, cr: Criteria): seq<bool>
  {
    seq(|sorted|, i requires 0 <= i < |sorted| => Accepts(sorted[i], cr))
  }

  /** The opened working mask of each sorted record. */
  function OpenedMasks(sorted: seq<MaskRecord>, cr: Criteria): seq<Mask>
  {
    seq(|sorted|, i requires 0 <= i < |sorted| => Opened(sorted[i], cr))
  }

  /** Positions (0-based) among the first n records whose verdict is "kept". */
  function AcceptedPositions(kept: seq<bool>, n: nat): seq<nat>
    requires n <= |kept|
  {
    if n == 0 then []
    else AcceptedPositions(kept, n - 1) + (if kept[n - 1] then [n - 1] else [])
  }

  /** `mascarasFiltradas` after the first n records: the kept ones. */
  function Kept(sorted: seq<MaskRecord>, kept: seq<bool>, n: nat): seq<MaskRecord>
    requires n <= |sorted| && n <= |kept|
  {
    if n == 0 then []
    else Kept(sorted, kept, n - 1) + (if kept[n - 1] then [sorted[n - 1]] else [])
  }

  /** Label of pixel (y, x) after the first n records: the last kept record
      whose painted mask covers it gives its position plus one; with none,
      the pixel keeps the caller's value `base`. */
  function LabelAt(kept: seq<bool>, painted: seq<Mask>, n: nat, base: int, y: int, x: int): int
    requires n <= |kept| && n <= |painted|
  {
    if n == 0 then base
    else if kept[n - 1] && Covers(painted[n - 1], y, x) then n
    else LabelAt(kept, painted, n - 1, base, y, x)
  }

  /** The kept list is the record list restricted to the accepted positions:
      positions strictly increase (a subsequence, in sorted order), a position
      is listed exactly when its record is kept, and the k-th kept record is
      the record at the k-th position. */
  lemma {:induction false} KeptIsSubsequence(sorted: seq<MaskRecord>, kept: seq<bool>, n: nat)
    requires n <= |sorted| && n <= |kept|
    ensures var ids := AcceptedPositions(kept, n);
      |Kept(sorted, kept, n)| == |ids| &&
      (forall k :: 0 <= k < |ids| ==> ids[k] < n && Kept(sorted, kept, n)[k] == sorted[ids[k]]) &&
      (forall k, l :: 0 <= k < l < |ids| ==> ids[k] < ids[l]) &&
      (forall i :: 0 <= i < n ==> (i in ids <==> kept[i]))
  {
    KeptAligned(sorted, kept, n);
    PositionsIncrease(kept, n);
    PositionsListed(kept, n);
  }

  lemma {:induction false} KeptAligned(sorted: seq<MaskRecord>, kept: seq<bool>, n: nat)
    requires n <= |sorted| && n <= |kept|
    ensures var ids := AcceptedPositions(kept, n);
      |Kept(sorted, kept, n)| == |ids| &&
      forall k :: 0 <= k < |ids| ==> ids[k] < n && Kept(sorted, kept, n)[k] == sorted[ids[k]]
  {
    if n > 0 {
      KeptAligned(sorted, kept, n - 1);
    }
  }

  lemma {:induction false} PositionsIncrease(kept: seq<bool>, n: nat)
    requires n <= |kept|
    ensures forall k :: 0 <= k < |AcceptedPositions(kept, n)| ==> AcceptedPositions(kept, n)[k] < n
    ensures forall k, l :: 0 <= k < l < |AcceptedPositions(kept, n)| ==>
      AcceptedPositions(kept, n)[k] < AcceptedPositions(kept, n)[l]
  {
    if n > 0 {
      PositionsIncrease(kept, n - 1);
      var ids0 := AcceptedPositions(kept, n - 1);
      assert forall k :: 0 <= k < |ids0| ==> ids0[k] < n - 1;
    }
  }

  lemma {:induction false} PositionsListed(kept: seq<bool>, n: nat)
    requires n <= |kept|
    ensures forall i :: 0 <= i < |kept| ==> (i in AcceptedPositions(kept, n) <==> i < n && kept[i])
  {
    if n > 0 {
      PositionsListed(kept, n - 1);
    }
  }

  /** The label a pixel ends with: either no kept record's painted mask
      covers it and it keeps the caller's value, or it holds v, where record
      v-1 is kept, its painted mask covers the pixel, and no later kept
      record's does. */
  lemma {:induction false} LabelAtIsLast(kept: seq<bool>, painted: seq<Mask>, n: nat, base: int, y: int, x: int)
    requires n <= |kept| && n <= |painted|
    ensures var v := LabelAt(kept, painted, n, base, y, x);
      (v == base && forall i :: 0 <= i < n ==> !(kept[i] && Covers(painted[i], y, x))) ||
      (1 <= v <= n && kept[v - 1] && Covers(painted[v - 1], y, x) &&
       forall i :: v <= i < n ==> !(kept[i] && Covers(painted[i], y, x)))
  {
    if n > 0 {
      LabelAtIsLast(kept, painted, n - 1, base, y, x);
    }
  }

  /** The opening never adds a pixel to the mask it opens. */
  ghost predicate OpeningShrinks(opening: Mask -> Mask)
  {
    forall m: Mask, y: int, x: int :: Covers(opening(m), y, x) ==> Covers(m, y, x)
  }

  /** `kept` and `painted` are the verdicts and opened masks of `sorted`. */
  ghost predicate Judged(sorted: seq<MaskRecord>, cr: Criteria, kept: seq<bool>, painted: seq<Mask>)
  {
    |kept| == |sorted| && |painted| == |sorted| &&
    forall i :: 0 <= i < |sorted| ==> kept[i] == Accepts(sorted[i], cr) && painted[i] == Opened(sorted[i], cr)
  }

  lemma VerdictsJudge(sorted: seq<MaskRecord>, cr: Criteria)
    ensures Judged(sorted, cr, Verdicts(sorted, cr), OpenedMasks(sorted, cr))
  {
  }

  /** A pixel whose label the filter changed lies in the segmentation of a
      kept record and is not darker than the threshold, and its new label is
      the 1-based sorted position of that record. */
  lemma ChangedPixelIsCovered(sorted: seq<MaskRecord>, cr: Criteria, kept: seq<bool>, painted: seq<Mask>,
                              base: int, y: int, x: int)
    requires OpeningShrinks(cr.opening) && Judged(sorted, cr, kept, painted)
    requires LabelAt(kept, painted, |sorted|, base, y, x) != base
    ensures var v := LabelAt(kept, painted, |sorted|, base, y, x);
      1 <= v <= |sorted| && Accepts(sorted[v - 1], cr) &&
      Covers(sorted[v - 1].segmentation, y, x) && Bright(cr, y, x)
  {
    LabelAtIsLast(kept, painted, |sorted|, base, y, x);
    var v := LabelAt(kept, painted, |sorted|, base, y, x);
    OpenedInSegmentation(sorted[v - 1], cr, y, x);
  }

  /** A pixel of the painted mask is a bright pixel of the segmentation. */
  lemma OpenedInSegmentation(m: MaskRecord, cr: Criteria, y: int, x: int)
    requires OpeningShrinks(cr.opening) && Covers(Opened(m, cr), y, x)
    ensures Covers(m.segmentation, y, x) && Bright(cr, y, x)
  {
    WorkingMaskMeaning(m.segmentation, cr);
  }

  // ---------------------------------------------------------------------------
  // procesarMascaras

  /** `imagenEtiquetada[mnarray] = value`: the pixels the mask covers take
      the value, every other pixel is unchanged. */
  method PaintMask(labels: array2<int>, mask: Mask, value: int)
    modifies labels
    ensures forall y, x :: 0 <= y < labels.Length0 && 0 <= x < labels.Length1 ==>
      labels[y, x] == if Covers(mask, y, x) then value else old(labels[y, x])
  {
    forall y, x | 0 <= y < labels.Length0 && 0 <= x < labels.Length1 && Covers(mask, y, x) {
      labels[y, x] := value;
    }
  }

  /** One iteration's test: skips a record with no pixel left after the
      intensity exclusion, then checks the area bounds; also yields the
      opened working mask. */
  method Judge(info: MaskRecord, cr: Criteria) returns (accept: bool, painted: Mask)
    ensures accept == Accepts(info, cr) && painted == Opened(info, cr)
  {
    var work := WorkingMask(info.segmentation, cr);
    WorkingMaskNonEmpty(info.segmentation, cr);
    if PixelCount(work) == 0 {
      return false, cr.opening(work);
    }
    painted := cr.opening(work);
    accept := cr.minSize < info.area && (info.area as real) < cr.maxSize;
  }

  /** `procesarMascaras`: walks the records sorted by area, largest first,
      and paints each kept record's opened working mask into `labels` with
      its sorted position plus one (skipped and rejected records still use
      up their position); returns the kept records, unmodified. Every other
      pixel of `labels` keeps its value. The label image and the masks have
      the intensity image's shape, as the caller guarantees. */
  method Postprocess(labels: array2<int>, masks: seq<MaskRecord>, intensity: seq<seq<real>>,
                     minSize: int, maxSize: real, minIntensity: int, opening: Mask -> Mask)
    returns (kept: seq<MaskRecord>)
    requires IsRect(intensity) && labels.Length0 == |intensity| && labels.Length1 == Width(intensity)
    requires forall k :: 0 <= k < |masks| ==> HasShape(masks[k].segmentation, |intensity|, Width(intensity))
    modifies labels
    ensures var cr := Criteria(intensity, minSize, maxSize, minIntensity, opening);
      var sorted := SortByArea(masks);
      |Verdicts(sorted, cr)| == |OpenedMasks(sorted, cr)| == |sorted| &&
      kept == Kept(sorted, Verdicts(sorted, cr), |sorted|) &&
      forall y, x :: 0 <= y < labels.Length0 && 0 <= x < labels.Length1 ==>
        labels[y, x] == LabelAt(Verdicts(sorted, cr), OpenedMasks(sorted, cr), |sorted|, old(labels[y, x]), y, x)
  {
    var cr := Criteria(intensity, minSize, maxSize, minIntensity, opening);
    var sorted := SortByArea(masks);
    ghost var verdicts, openedMasks := Verdicts(sorted, cr), OpenedMasks(sorted, cr);
    kept := [];
    var e := 0;
    while e < |sorted|
      invariant 0 <= e <= |sorted|
      invariant kept == Kept(sorted, verdicts, e)
      invariant forall y, x :: 0 <= y < labels.Length0 && 0 <= x < labels.Length1 ==>
        labels[y, x] == LabelAt(verdicts, openedMasks, e, old(labels[y, x]), y, x)
    {
      var accept, painted := Judge(sorted[e], cr);
      if accept {
        PaintMask(labels, painted, e + 1);
        kept := kept + [sorted[e]];
      }
      e := e + 1;
    }
  }
}
