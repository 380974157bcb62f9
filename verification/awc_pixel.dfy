/** One pixel of the available-water-capacity (AWC) computation: seven
    soil water-retention samples, one per depth 0, 5, 15, 30, 60, 100 and
    200 cm, combined by trapezoidal integration over depth into a volume
    fraction, or the output nodata sentinel when any sample is missing.

    Arithmetic is exact (integers, then `real`); float32 rounding is not
    modelled. */
module AwcPixel {

  /** An unsigned 8-bit raster value. */
  type Byte = x: int | 0 <= x < 256

  /** The nodata value every input layer must report (255 in the unsigned encoding). */
  const InputNodata: Byte := 255

  /** The output nodata sentinel: the most negative finite float32,
      -(2 - 2^-23) * 2^127, written out exactly. */
  const NodataFloat32: real := -340282346638528859811704183484516925440.0

  /** Sample depths in centimetres, in layer order. */
  const Depths: seq<int> := [0, 5, 15, 30, 60, 100, 200]

  /** Number of input layers. */
  const LayerCount: nat := 7

  /** A pixel's seven samples, one per depth. */
  type Column = v: seq<Byte> | |v| == LayerCount witness [0, 0, 0, 0, 0, 0, 0]

  /** A pixel is valid when none of its samples is the input nodata value. */
  predicate Valid(v: seq<Byte>) {
    forall k :: 0 <= k < |v| ==> v[k] != InputNodata
  }

  /** The integer inside the source's bracket: each depth interval's width
      times the sum of the samples at its two ends. */
  function WeightedSum(v: Column): int {
    (5 - 0) * (v[0] as int + v[1] as int)
    + (15 - 5) * (v[1] as int + v[2] as int)
    + (30 - 15) * (v[2] as int + v[3] as int)
    + (60 - 30) * (v[3] as int + v[4] as int)
    + (100 - 60) * (v[4] as int + v[5] as int)
    + (200 - 100) * (v[5] as int + v[6] as int)
  }

  /** The AWC fraction of a valid pixel: the weighted sum times
      (1/200) * (1/2), divided by 100, in exact arithmetic. */
  function AwcFormula(v: Column): (r: real)
    ensures 0.0 <= r
    ensures r > NodataFloat32
  {
    (1.0 / 200.0) * (1.0 / 2.0) * (WeightedSum(v) as real) / 100.0
  }

  /** The output value of one pixel: nodata when any layer is nodata,
      otherwise the AWC fraction. */
  function PixelAwc(v: Column): (r: real)
    ensures r == NodataFloat32 <==> exists k :: 0 <= k < LayerCount && v[k] == InputNodata
    ensures Valid(v) ==> r == TrapezoidMean(v)
    ensures Valid(v) ==> (Min(v) as real) / 100.0 <= r <= (Max(v) as real) / 100.0
  {
    if Valid(v) then
      FormulaIsTrapezoidMean(v);
      FormulaWithinSampleRange(v);
      AwcFormula(v)
    else
      NodataFloat32
  }

  // ---------------------------------------------------------------------
  // Reference definition: the trapezoid rule over arbitrary depths.

  /** Sum over consecutive depth intervals of (d[k+1] - d[k]) * (v[k] + v[k+1]),
      i.e. twice the trapezoid-rule integral of the samples over depth. */
  function TrapezoidSum(d: seq<int>, v: seq<int>): int
    requires |d| == |v|
    decreases |v|
  {
    if |v| < 2 then 0
    else (d[1] - d[0]) * (v[0] + v[1]) + TrapezoidSum(d[1..], v[1..])
  }

  /** The depth-averaged value by the trapezoid rule, over Depths, as a
      fraction (the samples are percentages). */
  function TrapezoidMean(v: Column): real {
    var span := Depths[|Depths| - 1] - Depths[0];
    (TrapezoidSum(Depths, v) as real) / (2.0 * span as real) / 100.0
  }

  /** The source's hand-expanded formula is the trapezoid rule over the
      seven depths, averaged over the 200 cm profile. */
  lemma FormulaIsTrapezoidMean(v: Column)
    ensures AwcFormula(v) == TrapezoidMean(v)
  {
    var d, u: seq<int> := Depths, v;
    calc {
      TrapezoidSum(d, u);
      (5 - 0) * (u[0] + u[1]) + TrapezoidSum(d[1..], u[1..]);
      { assert d[1..][1..] == d[2..] && u[1..][1..] == u[2..]; }
      (5 - 0) * (u[0] + u[1]) + (15 - 5) * (u[1] + u[2]) + TrapezoidSum(d[2..], u[2..]);
      { assert d[2..][1..] == d[3..] && u[2..][1..] == u[3..]; }
      (5 - 0) * (u[0] + u[1]) + (15 - 5) * (u[1] + u[2]) + (30 - 15) * (u[2] + u[3])
      + TrapezoidSum(d[3..], u[3..]);
      { assert d[3..][1..] == d[4..] && u[3..][1..] == u[4..];
        assert d[4..][1..] == d[5..] && u[4..][1..] == u[5..];
        assert d[5..][1..] == d[6..] && u[5..][1..] == u[6..];
        assert TrapezoidSum(d[6..], u[6..]) == 0;
        assert TrapezoidSum(d[5..], u[5..]) == (200 - 100) * (u[5] + u[6]);
        assert TrapezoidSum(d[4..], u[4..]) == (100 - 60) * (u[4] + u[5]) + (200 - 100) * (u[5] + u[6]); }
      WeightedSum(v);
    }
  }

  /** The depths are strictly increasing. */
  predicate Increasing(d: seq<int>) {
    forall j, k :: 0 <= j < k < |d| ==> d[j] < d[k]
  }

  /** Between the smallest and the largest sample, the trapezoid sum is
      bounded by twice the depth span times that sample. */
  lemma {:induction false} TrapezoidSumBounds(d: seq<int>, v: seq<int>, lo: int, hi: int)
    requires |d| == |v| >= 1
    requires Increasing(d)
    requires forall k :: 0 <= k < |v| ==> lo <= v[k] <= hi
    ensures 2 * lo * (d[|d| - 1] - d[0]) <= TrapezoidSum(d, v) <= 2 * hi * (d[|d| - 1] - d[0])
  {
    if |v| >= 2 {
      TrapezoidSumBounds(d[1..], v[1..], lo, hi);
      var w := d[1] - d[0];
      assert w > 0;
      assert w * (2 * lo) <= w * (v[0] + v[1]) <= w * (2 * hi) by {
        ScaleMonotone(w, 2 * lo, v[0] + v[1]);
        ScaleMonotone(w, v[0] + v[1], 2 * hi);
      }
      assert d[1..][|d[1..]| - 1] == d[|d| - 1];
    }
  }

  /** Multiplying by a non-negative factor keeps the order. */
  lemma ScaleMonotone(w: int, x: int, y: int)
    requires 0 <= w && x <= y
    ensures w * x <= w * y
  {
  }

  /** When every sample equals c, the trapezoid sum is twice the depth span times c. */
  lemma {:induction false} TrapezoidSumOfConstant(d: seq<int>, v: seq<int>, c: int)
    requires |d| == |v| >= 1
    requires forall k :: 0 <= k < |v| ==> v[k] == c
    ensures TrapezoidSum(d, v) == 2 * c * (d[|d| - 1] - d[0])
  {
    if |v| >= 2 {
      TrapezoidSumOfConstant(d[1..], v[1..], c);
      assert d[1..][|d[1..]| - 1] == d[|d| - 1];
    }
  }

  // ---------------------------------------------------------------------
  // Extremes of a pixel's samples.

  /** The smallest element of a non-empty sequence. */
  function Min(v: seq<int>): (m: int)
    requires |v| >= 1
    ensures forall k :: 0 <= k < |v| ==> m <= v[k]
    ensures exists k :: 0 <= k < |v| && m == v[k]
  {
    if |v| == 1 then v[0]
    else
      var m := Min(v[1..]);
      assert forall k :: 1 <= k < |v| ==> v[k] == v[1..][k - 1];
      if v[0] <= m then v[0] else m
  }

  /** The largest element of a non-empty sequence. */
  function Max(v: seq<int>): (m: int)
    requires |v| >= 1
    ensures forall k :: 0 <= k < |v| ==> v[k] <= m
    ensures exists k :: 0 <= k < |v| && m == v[k]
  {
    if |v| == 1 then v[0]
    else
      var m := Max(v[1..]);
      assert forall k :: 1 <= k < |v| ==> v[k] == v[1..][k - 1];
      if v[0] >= m then v[0] else m
  }

  // ---------------------------------------------------------------------
  // Properties of the per-pixel formula.

  /** A valid output lies between the pixel's smallest and largest sample,
      read as a percentage. */
  lemma FormulaWithinSampleRange(v: Column)
    ensures (Min(v) as real) / 100.0 <= AwcFormula(v) <= (Max(v) as real) / 100.0
  {
    FormulaIsTrapezoidMean(v);
    assert Increasing(Depths);
    TrapezoidSumBounds(Depths, v, Min(v), Max(v));
  }

  /** Samples that are percentages (0..100) give a fraction in [0, 1]. */
  lemma FormulaIsFraction(v: Column)
    requires forall k :: 0 <= k < LayerCount ==> v[k] <= 100
    ensures 0.0 <= AwcFormula(v) <= 1.0
  {
    FormulaWithinSampleRange(v);
    var k :| 0 <= k < |v| && Max(v) == v[k];
  }

  /** Seven equal samples c give c / 100: the interval widths add up to the
      200 cm the formula divides by. */
  lemma FormulaOfConstant(v: Column, c: Byte)
    requires forall k :: 0 <= k < LayerCount ==> v[k] == c
    ensures AwcFormula(v) == (c as real) / 100.0
  {
    FormulaIsTrapezoidMean(v);
    TrapezoidSumOfConstant(Depths, v, c);
  }

  /** The worked example: seven samples of 10 give the fraction 0.1. */
  lemma SevenTensGiveOneTenth()
    ensures PixelAwc([10, 10, 10, 10, 10, 10, 10]) == 0.1
  {
    var v: Column := [10, 10, 10, 10, 10, 10, 10];
    FormulaOfConstant(v, 10);
  }
}
