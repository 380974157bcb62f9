/** The entry point of the AWC computation: check that every input raster
    reports the expected nodata value, then combine the seven rasters pixel
    by pixel. */
module AwcPipeline {
  import opened Wrappers
  import opened AwcPixel
  import opened AwcBlock

  /** What the computation reads of one input raster: the nodata value its
      first band reports (None when the band has none), its size in columns
      and rows, and its samples in row-major order. */
  datatype Raster = Raster(nodata: Option<real>, cols: nat, rows: nat, pixels: seq<Byte>) {
    /** The samples fill the grid exactly. */
    predicate WellFormed() {
      |pixels| == cols * rows
    }

    /** The raster size as (columns, rows). */
    function Size(): (nat, nat) {
      (cols, rows)
    }
  }

  /** Why the computation stopped before producing any output. */
  datatype Error =
    | NodataMismatch(reported: seq<Option<real>>)  // some layer's nodata is not 255
    | Misaligned                                   // the rasters differ in columns or rows

  /** The nodata value the seven inputs must report, as GDAL reports it (a float). */
  const ExpectedNodata: real := InputNodata as real

  /** The nodata values the rasters report, in depth order. */
  function ReportedNodata(rasters: seq<Raster>): seq<Option<real>> {
    seq(|rasters|, k requires 0 <= k < |rasters| => rasters[k].nodata)
  }

  /** The samples of the rasters, one block per depth. */
  function Layers(rasters: seq<Raster>): seq<seq<Byte>> {
    seq(|rasters|, k requires 0 <= k < |rasters| => rasters[k].pixels)
  }

  /** The seven samples at pixel i, in depth order. */
  function PixelSamples(rasters: seq<Raster>, i: nat): Column
    requires |rasters| == LayerCount
    requires forall k :: 0 <= k < LayerCount ==> i < |rasters[k].pixels|
  {
    seq(LayerCount, k requires 0 <= k < LayerCount => rasters[k].pixels[i])
  }

  /** All seven rasters have the size of the first. */
  predicate SameSize(rasters: seq<Raster>)
    requires |rasters| == LayerCount
  {
    forall k :: 0 <= k < LayerCount ==> rasters[k].Size() == rasters[0].Size()
  }

  /** The whole computation on seven rasters in depth order. The nodata
      check comes first, so a raster reporting another nodata value (or
      none) stops everything before any pixel is computed; rasters whose
      column or row counts differ are refused next; otherwise every pixel is
      nodata exactly where some layer is, and holds the trapezoid-rule AWC
      fraction elsewhere. */
  function CalculateAwc(rasters: seq<Raster>): (r: Result<seq<real>, Error>)
    requires |rasters| == LayerCount
    requires forall k :: 0 <= k < LayerCount ==> rasters[k].WellFormed()
    ensures r.Failure? && r.error.NodataMismatch? <==>
              exists k :: 0 <= k < LayerCount && rasters[k].nodata != Some(ExpectedNodata)
    ensures r.Success? <==>
              && (forall k :: 0 <= k < LayerCount ==> rasters[k].nodata == Some(ExpectedNodata))
              && (forall k :: 0 <= k < LayerCount ==>
                    rasters[k].cols == rasters[0].cols && rasters[k].rows == rasters[0].rows)
    ensures r.Success? ==> |r.value| == rasters[0].cols * rasters[0].rows
    ensures r.Success? ==> forall k :: 0 <= k < LayerCount ==> |rasters[k].pixels| == |r.value|
    ensures r.Success? ==> forall i :: 0 <= i < |r.value| ==>
              (r.value[i] == NodataFloat32 <==>
                 exists k :: 0 <= k < LayerCount && rasters[k].pixels[i] == InputNodata)
    ensures r.Success? ==> forall i :: 0 <= i < |r.value| && Valid(PixelSamples(rasters, i)) ==>
              r.value[i] == TrapezoidMean(PixelSamples(rasters, i))
  {
    var reported := ReportedNodata(rasters);
    NodataCheck(rasters);
    if reported != seq(LayerCount, _ => Some(ExpectedNodata)) then
      Failure(NodataMismatch(reported))
    else if !SameSize(rasters) then
      Failure(Misaligned)
    else
      LayersOfSameSize(rasters);
      Success(BlockAwc(Layers(rasters)))
  }

  /** The reported nodata list equals seven copies of 255 exactly when every
      raster reports 255. */
  lemma NodataCheck(rasters: seq<Raster>)
    requires |rasters| == LayerCount
    ensures ReportedNodata(rasters) == seq(LayerCount, _ => Some(ExpectedNodata)) <==>
              forall k :: 0 <= k < LayerCount ==> rasters[k].nodata == Some(ExpectedNodata)
  {
    var reported := ReportedNodata(rasters);
    if forall k :: 0 <= k < LayerCount ==> rasters[k].nodata == Some(ExpectedNodata) {
      assert reported == seq(LayerCount, _ => Some(ExpectedNodata));
    } else {
      var k :| 0 <= k < LayerCount && rasters[k].nodata != Some(ExpectedNodata);
      assert reported[k] != Some(ExpectedNodata);
    }
  }

  /** Well-formed rasters of one size give an aligned stack whose width is
      the common pixel count and whose columns are the rasters' samples. */
  lemma LayersOfSameSize(rasters: seq<Raster>)
    requires |rasters| == LayerCount
    requires forall k :: 0 <= k < LayerCount ==> rasters[k].WellFormed()
    requires SameSize(rasters)
    ensures Aligned(Layers(rasters))
    ensures Width(Layers(rasters)) == rasters[0].cols * rasters[0].rows
    ensures forall k :: 0 <= k < LayerCount ==> |rasters[k].pixels| == Width(Layers(rasters))
    ensures forall i :: 0 <= i < Width(Layers(rasters)) ==>
              ColumnAt(Layers(rasters), i) == PixelSamples(rasters, i)
  {
    var layers := Layers(rasters);
    forall k | 0 <= k < LayerCount
      ensures |rasters[k].pixels| == |rasters[0].pixels|
    {
      assert rasters[k].Size() == rasters[0].Size();
      assert rasters[k].WellFormed() && rasters[0].WellFormed();
    }
    assert forall k :: 0 <= k < LayerCount ==> layers[k] == rasters[k].pixels;
  }

  /** Rasters of one pixel count but transposed shapes, 2 x 3 against
      3 x 2, are refused rather than combined. */
  lemma TransposedShapesAreRefused()
    ensures
      var wide := Raster(Some(255.0), 3, 2, [1, 2, 3, 4, 5, 6]);
      var tall := Raster(Some(255.0), 2, 3, [1, 2, 3, 4, 5, 6]);
      CalculateAwc([wide, tall, tall, tall, tall, tall, tall]) == Failure(Misaligned)
  {
    var wide := Raster(Some(255.0), 3, 2, [1, 2, 3, 4, 5, 6]);
    var tall := Raster(Some(255.0), 2, 3, [1, 2, 3, 4, 5, 6]);
    var rasters := [wide, tall, tall, tall, tall, tall, tall];
    assert ReportedNodata(rasters) == seq(LayerCount, _ => Some(ExpectedNodata));
    assert rasters[1].Size() != rasters[0].Size();
  }

  /** Given consistent inputs, the block-wise evaluation over any covering
      set of windows gives the same output as the whole computation. */
  method CalculateAwcBlockwise(rasters: seq<Raster>, windows: seq<seq<nat>>) returns (r: Result<seq<real>, Error>)
    requires |rasters| == LayerCount
    requires forall k :: 0 <= k < LayerCount ==> rasters[k].WellFormed()
    requires forall w, j :: 0 <= w < |windows| && 0 <= j < |windows[w]| ==> windows[w][j] < |rasters[0].pixels|
    requires Covers(windows, |rasters[0].pixels|)
    ensures r == CalculateAwc(rasters)
  {
    var reported := ReportedNodata(rasters);
    if reported != seq(LayerCount, _ => Some(ExpectedNodata)) {
      return Failure(NodataMismatch(reported));
    }
    if !SameSize(rasters) {
      return Failure(Misaligned);
    }
    var layers := Layers(rasters);
    LayersOfSameSize(rasters);
    var out := CalculateByWindows(layers, windows);
    return Success(out);
  }
}
