/** The per-tile segmentation driver (`TurbotSAM.generarMascarasPorCuadrante`):
    a generator that runs the segmentation oracle on each tile in turn,
    appends its masks to one shared list and reports progress after every
    tile. The oracle (MobileSAM's automatic mask generator) is a parameter. */
module TileSegmentation {
  import opened Images

  /** `aux`: the percentage reached once every tile is segmented, 90
      without postprocessing and 50 with it. */
  function ProgressCap(postprocessing: bool): nat
  {
    if postprocessing then 50 else 90
  }

  /** `(cont / numCuadrantes) * aux` after `k` of `n` tiles. */
  function Progress(k: nat, n: nat, cap: nat): (p: real)
    requires 0 < k <= n
    ensures 0.0 < p <= cap as real || (cap == 0 && p == 0.0)
    ensures p == cap as real <==> k == n || cap == 0
  {
    ProgressFraction(k, n);
    (k as real / n as real) * cap as real
  }

  lemma ProgressFraction(k: nat, n: nat)
    requires 0 < k <= n
    ensures 0.0 < k as real / n as real <= 1.0
    ensures k as real / n as real == 1.0 <==> k == n
  {
  }

  /** Progress strictly increases from tile to tile (for a positive cap). */
  lemma ProgressIncreases(k: nat, l: nat, n: nat, cap: nat)
    requires 0 < k < l <= n && 0 < cap
    ensures Progress(k, n, cap) < Progress(l, n, cap)
  {
    var a, b := k as real / n as real, l as real / n as real;
    assert a * n as real == k as real;
    assert b * n as real == l as real;
    if b <= a {
      assert false;
    }
  }

  /** What one resumption of the generator produces. */
  datatype Step =
    | Yielded(progress: real, perTile: seq<seq<MaskRecord>>, done: nat)  // `(porcentaje, mascarasPorCuadrante, cont)`
    | Raised(error: Error)                                                 // the oracle raised; re-raised
    | Exhausted                                                            // StopIteration

  /** A running `generarMascarasPorCuadrante(cuadrantes, postprocesamiento)`. */
  class MaskStream<T> {
    const tiles: seq<T>
    const oracle: T -> Result<seq<MaskRecord>>
    const cap: nat
    /** `cont`: tiles segmented so far. */
    var count: nat
    /** `mascarasPorCuadrante`: the oracle's masks for each segmented tile. */
    var perTile: seq<seq<MaskRecord>>
    /** The generator has returned or raised; further resumptions stop. */
    var finished: bool

    /** The shared list holds, tile by tile, what the oracle returned for the
        first `count` tiles, all of which it segmented without raising. */
    ghost predicate Valid()
      reads this
    {
      count <= |tiles| && |perTile| == count &&
      forall j :: 0 <= j < count ==> oracle(tiles[j]) == Ok(perTile[j])
    }

    constructor (tiles: seq<T>, oracle: T -> Result<seq<MaskRecord>>, postprocessing: bool)
      ensures Valid()
      ensures this.tiles == tiles && this.oracle == oracle && cap == ProgressCap(postprocessing)
      ensures count == 0 && perTile == [] && !finished
    {
      this.tiles := tiles;
      this.oracle := oracle;
      cap := ProgressCap(postprocessing);
      count := 0;
      perTile := [];
      finished := false;
    }

    /** One `next()`: segments the next tile, appends its masks to the shared
        list and yields the progress, the list and the tile count; re-raises
        the oracle's error; stops once every tile is done or after raising. */
    method Next() returns (s: Step)
      requires Valid()
      modifies this
      ensures Valid()
      ensures old(finished) || old(count) == |tiles| ==>
        s == Exhausted && finished && count == old(count) && perTile == old(perTile)
      ensures !old(finished) && old(count) < |tiles| && oracle(tiles[old(count)]).Err? ==>
        s == Raised(oracle(tiles[old(count)]).error) && finished &&
        count == old(count) && perTile == old(perTile)
      ensures !old(finished) && old(count) < |tiles| && oracle(tiles[old(count)]).Ok? ==>
        !finished && count == old(count) + 1 &&
        perTile == old(perTile) + [oracle(tiles[old(count)]).value] &&
        s == Yielded(Progress(count, |tiles|, cap), perTile, count)
    {
      if finished || count == |tiles| {
        finished := true;
        return Exhausted;
      }
      var masks := oracle(tiles[count]);
      if masks.Err? {
        finished := true;
        return Raised(masks.error);
      }
      count := count + 1;
      perTile := perTile + [masks.value];
      s := Yielded(Progress(count, |tiles|, cap), perTile, count);
    }
  }

  /** Number of leading tiles the oracle segments without raising. */
  function OkPrefix<T>(tiles: seq<T>, oracle: T -> Result<seq<MaskRecord>>): (n: nat)
    ensures n <= |tiles|
    ensures forall j :: 0 <= j < n ==> oracle(tiles[j]).Ok?
    ensures n < |tiles| ==> oracle(tiles[n]).Err?
  {
    if |tiles| == 0 || oracle(tiles[0]).Err? then 0
    else 1 + OkPrefix(tiles[1..], oracle)
  }

  /** The consuming loop (`for porcentaje, mascarasPorCuadrante, cuadranteProcesado
      in ...`): drives the generator to its end. It sees one yield per tile
      segmented before the first failure, the k-th reporting tile k and
      progress k / n of the cap, and ends with the oracle's masks for every
      tile, in tile order, or with the first tile's error. `last` is the list
      the caller holds afterwards, which it stitches even after an error: the
      masks of the tiles segmented before the failure. */
  method ConsumeAll<T>(tiles: seq<T>, oracle: T -> Result<seq<MaskRecord>>, postprocessing: bool)
    returns (r: Result<seq<seq<MaskRecord>>>, reports: seq<(real, nat)>, last: seq<seq<MaskRecord>>)
    ensures var n := OkPrefix(tiles, oracle);
      |reports| == n && |last| == n &&
      (forall j :: 0 <= j < n ==> oracle(tiles[j]) == Ok(last[j])) &&
      (r.Ok? ==> r.value == last) &&
      (forall k :: 0 <= k < n ==> reports[k] == (Progress(k + 1, |tiles|, ProgressCap(postprocessing)), k + 1)) &&
      (r.Ok? <==> n == |tiles|) &&
      (r.Ok? ==> |r.value| == |tiles| && forall j :: 0 <= j < |tiles| ==> oracle(tiles[j]) == Ok(r.value[j])) &&
      (r.Err? ==> r.error == oracle(tiles[n]).error)
  {
    var stream := new MaskStream(tiles, oracle, postprocessing);
    reports := [];
    r := Ok([]);
    var n := OkPrefix(tiles, oracle);
    while true
      invariant stream.Valid() && stream.tiles == tiles && stream.oracle == oracle
      invariant stream.cap == ProgressCap(postprocessing)
      invariant stream.count <= n && |reports| == stream.count
      invariant forall k :: 0 <= k < stream.count ==>
        reports[k] == (Progress(k + 1, |tiles|, stream.cap), k + 1)
      invariant !stream.finished ==> r == Ok(stream.perTile)
      invariant stream.finished ==>
        stream.count == n &&
        (if n == |tiles| then r == Ok(stream.perTile) else r == Err(oracle(tiles[n]).error))
      decreases |tiles| - stream.count, if stream.finished then 0 else 1
    {
      if stream.finished {
        last := stream.perTile;
        return;
      }
      var step := stream.Next();
      match step {
        case Yielded(progress, perTile, done) =>
          reports := reports + [(progress, done)];
          r := Ok(perTile);
        case Raised(e) =>
          r := Err(e);
        case Exhausted =>
      }
    }
  }
}
