/** The block function handed to the raster calculator: seven aligned
    blocks of uint8 samples in, one block of AWC fractions out, with a
    pixel set to the output nodata sentinel when any layer is nodata there.

    A two-dimensional block is flattened in row-major order; a window of
    the raster is any sequence of pixel indices, so the locality results
    below cover rectangular tiles of every size. */
module AwcBlock {
  import opened AwcPixel

  /** Seven blocks of equal length, layer k holding the samples at Depths[k]. */
  predicate Aligned(layers: seq<seq<Byte>>) {
    && |layers| == LayerCount
    && forall k :: 0 <= k < LayerCount ==> |layers[k]| == |layers[0]|
  }

  /** Number of pixels in an aligned stack of blocks. */
  function Width(layers: seq<seq<Byte>>): nat
    requires Aligned(layers)
  {
    |layers[0]|
  }

  /** The seven samples of pixel i, in depth order. */
  function ColumnAt(layers: seq<seq<Byte>>, i: nat): Column
    requires Aligned(layers) && i < Width(layers)
  {
    seq(LayerCount, k requires 0 <= k < LayerCount => layers[k][i])
  }

  /** The output block, pixel by pixel: the reference the method Calculate
      is proved against and the locality lemmas are stated on. */
  function BlockAwc(layers: seq<seq<Byte>>): (r: seq<real>)
    requires Aligned(layers)
    ensures |r| == Width(layers)
    ensures forall i :: 0 <= i < |r| ==>
              (r[i] == NodataFloat32 <==> exists k :: 0 <= k < LayerCount && layers[k][i] == InputNodata)
    ensures forall i :: 0 <= i < |r| && Valid(ColumnAt(layers, i)) ==>
              r[i] == TrapezoidMean(ColumnAt(layers, i))
  {
    seq(Width(layers), i requires 0 <= i < Width(layers) => PixelAwc(ColumnAt(layers, i)))
  }

  /** The validity mask: true where no layer holds the input nodata value,
      built by AND-ing one layer at a time into an all-true mask. */
  method ValidMask(layers: seq<seq<Byte>>) returns (mask: seq<bool>)
    requires Aligned(layers)
    ensures |mask| == Width(layers)
    ensures forall i :: 0 <= i < |mask| ==>
              (mask[i] <==> forall k :: 0 <= k < LayerCount ==> layers[k][i] != InputNodata)
  {
    var n := Width(layers);
    mask := seq(n, _ => true);
    var k := 0;
    while k < LayerCount
      invariant 0 <= k <= LayerCount
      invariant |mask| == n
      invariant forall i :: 0 <= i < n ==>
                  (mask[i] <==> forall j :: 0 <= j < k ==> layers[j][i] != InputNodata)
    {
      var layer := layers[k];
      mask := seq(n, i requires 0 <= i < n => mask[i] && layer[i] != InputNodata);
      k := k + 1;
    }
  }

  /** The block computation: start every pixel at the output nodata value,
      build the validity mask, then write the AWC fraction at each valid pixel. */
  method Calculate(layers: seq<seq<Byte>>) returns (awc: seq<real>)
    requires Aligned(layers)
    ensures |awc| == Width(layers)
    ensures forall i :: 0 <= i < |awc| ==>
              (awc[i] == NodataFloat32 <==> exists k :: 0 <= k < LayerCount && layers[k][i] == InputNodata)
    ensures forall i :: 0 <= i < |awc| && Valid(ColumnAt(layers, i)) ==>
              awc[i] == TrapezoidMean(ColumnAt(layers, i))
    ensures awc == BlockAwc(layers)
  {
    var n := Width(layers);
    awc := seq(n, _ => NodataFloat32);
    var mask := ValidMask(layers);
    var i := 0;
    while i < n
      invariant 0 <= i <= n
      invariant |awc| == n
      invariant forall j :: 0 <= j < i ==> awc[j] == PixelAwc(ColumnAt(layers, j))
      invariant forall j :: i <= j < n ==> awc[j] == NodataFloat32
    {
      var column := ColumnAt(layers, i);
      assert forall k :: 0 <= k < LayerCount ==> column[k] == layers[k][i];
      assert mask[i] <==> Valid(column);
      if mask[i] {
        awc := awc[i := AwcFormula(column)];
      }
      i := i + 1;
    }
  }

  // ---------------------------------------------------------------------
  // Pixel locality.

  /** Two stacks that agree on pixel i give the same output at i. */
  lemma PixelLocality(a: seq<seq<Byte>>, b: seq<seq<Byte>>, i: nat, j: nat)
    requires Aligned(a) && Aligned(b)
    requires i < Width(a) && j < Width(b)
    requires forall k :: 0 <= k < LayerCount ==> a[k][i] == b[k][j]
    ensures BlockAwc(a)[i] == BlockAwc(b)[j]
  {
    assert ColumnAt(a, i) == ColumnAt(b, j);
  }

  /** Side-by-side concatenation of two stacks, layer by layer. */
  function Concat(a: seq<seq<Byte>>, b: seq<seq<Byte>>): (c: seq<seq<Byte>>)
    requires Aligned(a) && Aligned(b)
    ensures Aligned(c) && Width(c) == Width(a) + Width(b)
  {
    seq(LayerCount, k requires 0 <= k < LayerCount => a[k] + b[k])
  }

  /** Computing on two blocks joined together equals joining the two results. */
  lemma ConcatLocality(a: seq<seq<Byte>>, b: seq<seq<Byte>>)
    requires Aligned(a) && Aligned(b)
    ensures BlockAwc(Concat(a, b)) == BlockAwc(a) + BlockAwc(b)
  {
    var c := Concat(a, b);
    forall i | 0 <= i < Width(c)
      ensures BlockAwc(c)[i] == (BlockAwc(a) + BlockAwc(b))[i]
    {
      if i < Width(a) {
        PixelLocality(c, a, i, i);
      } else {
        PixelLocality(c, b, i, i - Width(a));
      }
    }
  }

  /** The sub-stack of the pixels listed in idx, in that order: the block a
      window of the raster reads. */
  function Gather(layers: seq<seq<Byte>>, idx: seq<nat>): (g: seq<seq<Byte>>)
    requires Aligned(layers)
    requires forall j :: 0 <= j < |idx| ==> idx[j] < Width(layers)
    ensures Aligned(g) && Width(g) == |idx|
    ensures forall k, j :: 0 <= k < LayerCount && 0 <= j < |idx| ==>
              idx[j] < |layers[k]| && g[k][j] == layers[k][idx[j]]
  {
    var g := seq(LayerCount, k requires 0 <= k < LayerCount =>
      assert |layers[k]| == Width(layers);
      seq(|idx|, j requires 0 <= j < |idx| => layers[k][idx[j]]));
    assert forall k, j :: 0 <= k < LayerCount && 0 <= j < |idx| ==> idx[j] < |layers[k]| by {
      forall k, j | 0 <= k < LayerCount && 0 <= j < |idx|
        ensures idx[j] < |layers[k]|
      {
        assert |layers[k]| == Width(layers);
        assert idx[j] < Width(layers);
      }
    }
    g
  }

  /** Computing on any window gives the whole-grid output restricted to that window. */
  lemma WindowLocality(layers: seq<seq<Byte>>, idx: seq<nat>)
    requires Aligned(layers)
    requires forall j :: 0 <= j < |idx| ==> idx[j] < Width(layers)
    ensures forall j :: 0 <= j < |idx| ==> BlockAwc(Gather(layers, idx))[j] == BlockAwc(layers)[idx[j]]
  {
    var g := Gather(layers, idx);
    forall j | 0 <= j < |idx|
      ensures BlockAwc(g)[j] == BlockAwc(layers)[idx[j]]
    {
      PixelLocality(g, layers, j, idx[j]);
    }
  }

  // ---------------------------------------------------------------------
  // Block-wise iteration.

  /** Pixel p appears in one of the first m windows. */
  predicate WrittenBy(windows: seq<seq<nat>>, m: nat, p: nat)
    requires m <= |windows|
  {
    exists w, j :: 0 <= w < m && 0 <= j < |windows[w]| && windows[w][j] == p
  }

  /** Every pixel index below n appears in some window. */
  predicate Covers(windows: seq<seq<nat>>, n: nat) {
    forall p :: 0 <= p < n ==> WrittenBy(windows, |windows|, p)
  }

  /** Writing a computed block back to its window: each listed pixel
      receives its block value and every other pixel keeps its old value.
      When the block agrees with a reference on the window, each written
      pixel holds the reference value. */
  method WriteWindow(out: seq<real>, window: seq<nat>, block: seq<real>, reference: seq<real>)
    returns (written: seq<real>)
    requires |block| == |window| && |reference| == |out|
    requires forall j :: 0 <= j < |window| ==> window[j] < |out| && block[j] == reference[window[j]]
    ensures |written| == |out|
    ensures forall p :: 0 <= p < |out| ==> written[p] == (if p in window then reference[p] else out[p])
  {
    written := out;
    var j := 0;
    while j < |window|
      invariant 0 <= j <= |window|
      invariant |written| == |out|
      invariant forall p :: 0 <= p < |out| ==>
                  written[p] == (if p in window[..j] then reference[p] else out[p])
    {
      written := written[window[j] := block[j]];
      assert window[..j + 1] == window[..j] + [window[j]];
      j := j + 1;
    }
    assert window[..j] == window;
  }

  /** Block-wise iteration as the raster calculator performs it: the output
      starts as nodata everywhere, and for each window the block function
      runs on that window's samples and its results are written back to the
      window's pixels. Whatever the windows, every pixel written holds the
      whole-grid value, and a covering set of windows gives exactly the
      whole-grid output. */
  method CalculateByWindows(layers: seq<seq<Byte>>, windows: seq<seq<nat>>) returns (out: seq<real>)
    requires Aligned(layers)
    requires forall w, j :: 0 <= w < |windows| && 0 <= j < |windows[w]| ==> windows[w][j] < Width(layers)
    ensures |out| == Width(layers)
    ensures forall p :: 0 <= p < |out| ==>
              out[p] == (if WrittenBy(windows, |windows|, p) then BlockAwc(layers)[p] else NodataFloat32)
    ensures Covers(windows, Width(layers)) ==> out == BlockAwc(layers)
  {
    var n := Width(layers);
    var whole := BlockAwc(layers);
    out := seq(n, _ => NodataFloat32);
    var m := 0;
    while m < |windows|
      invariant 0 <= m <= |windows|
      invariant |out| == n
      invariant forall p :: 0 <= p < n ==>
                  out[p] == (if WrittenBy(windows, m, p) then whole[p] else NodataFloat32)
    {
      var window := windows[m];
      var block := Calculate(Gather(layers, window));
      WindowLocality(layers, window);
      out := WriteWindow(out, window, block, whole);
      forall p | 0 <= p < n
        ensures WrittenBy(windows, m + 1, p) <==> WrittenBy(windows, m, p) || p in window
      {
        if p in window {
          var j :| 0 <= j < |window| && window[j] == p;
          assert windows[m][j] == p;
        }
      }
      m := m + 1;
    }
    if Covers(windows, n) {
      forall p | 0 <= p < n
        ensures out[p] == whole[p]
      {
        assert WrittenBy(windows, |windows|, p);
      }
    }
  }
}
