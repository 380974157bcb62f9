/** The AWC formula as the source evaluates it on unsigned 8-bit blocks.

    The input blocks hold uint8 values. In numpy the sum of two uint8
    arrays is a uint8 array, and a Python integer that fits in uint8 (the
    interval widths 5, 10, 15, 30, 40 and 100 all do) multiplied by a uint8
    array is again a uint8 array: every intermediate result wraps modulo
    256. Only the final multiplication by the float (1/200) * (1/2)
    promotes to floating point. This module models that evaluation and
    shows that it loses the intended value; the rest of the model uses the
    exact AwcPixel.AwcFormula instead. */
module Uint8Formula {
  import opened AwcPixel
  import opened AwcBlock

  /** uint8 wrap-around of a non-negative intermediate result. */
  function Wrap(x: int): (b: Byte)
    requires 0 <= x
    ensures x < 256 ==> b == x
    ensures (x - b) % 256 == 0
  {
    x % 256
  }

  /** The bracketed sum evaluated left to right in uint8 arithmetic. */
  function WrappedWeightedSum(v: Column): Byte {
    var t0 := Wrap((5 - 0) * Wrap(v[0] as int + v[1] as int));
    var t1 := Wrap((15 - 5) * Wrap(v[1] as int + v[2] as int));
    var t2 := Wrap((30 - 15) * Wrap(v[2] as int + v[3] as int));
    var t3 := Wrap((60 - 30) * Wrap(v[3] as int + v[4] as int));
    var t4 := Wrap((100 - 60) * Wrap(v[4] as int + v[5] as int));
    var t5 := Wrap((200 - 100) * Wrap(v[5] as int + v[6] as int));
    Wrap(Wrap(Wrap(Wrap(Wrap(t0 + t1) + t2) + t3) + t4) + t5)
  }

  /** The valid-pixel value as written: the wrapped sum times
      (1/200) * (1/2), divided by 100. */
  function AwcAsWritten(v: Column): (r: real)
    ensures 0.0 <= r <= 255.0 / 40000.0
  {
    (1.0 / 200.0) * (1.0 / 2.0) * (WrappedWeightedSum(v) as real) / 100.0
  }

  /** As written, the source keeps only the exact weighted sum modulo 256. */
  lemma AsWrittenIsSumModulo256(v: Column)
    ensures AwcAsWritten(v) == ((WeightedSum(v) % 256) as real) / 40000.0
  {
    WrappedSumIsSumModulo256(v);
  }

  /** The uint8 evaluation of the bracket is the exact bracket modulo 256. */
  lemma WrappedSumIsSumModulo256(v: Column)
    ensures WrappedWeightedSum(v) == WeightedSum(v) % 256
  {
    var x0, x1, x2 := v[0] as int + v[1] as int, v[1] as int + v[2] as int, v[2] as int + v[3] as int;
    var x3, x4, x5 := v[3] as int + v[4] as int, v[4] as int + v[5] as int, v[5] as int + v[6] as int;
    ScaleModulo(5, x0);
    ScaleModulo(10, x1);
    ScaleModulo(15, x2);
    ScaleModulo(30, x3);
    ScaleModulo(40, x4);
    ScaleModulo(100, x5);
    var a1 := 5 * x0 + 10 * x1;
    AddModulo(5 * x0, 10 * x1);
    var a2 := a1 + 15 * x2;
    AddModulo(a1, 15 * x2);
    var a3 := a2 + 30 * x3;
    AddModulo(a2, 30 * x3);
    var a4 := a3 + 40 * x4;
    AddModulo(a3, 40 * x4);
    AddModulo(a4, 100 * x5);
  }

  /** Adding multiples of 256 does not change a residue. */
  lemma ShiftModulo(c: int, k: int)
    ensures (c + 256 * k) % 256 == c % 256
  {
  }

  /** Scaling commutes with reduction modulo 256. */
  lemma ScaleModulo(w: nat, x: nat)
    ensures (w * (x % 256)) % 256 == (w * x) % 256
  {
    var q := x / 256;
    assert x == 256 * q + x % 256;
    assert w * x == w * (x % 256) + 256 * (w * q);
    ShiftModulo(w * (x % 256), w * q);
  }

  /** Reducing both addends modulo 256 gives the residue of the sum. */
  lemma AddModulo(a: nat, b: nat)
    ensures (a % 256 + b % 256) % 256 == (a + b) % 256
  {
    assert a + b == a % 256 + b % 256 + 256 * (a / 256 + b / 256);
    ShiftModulo(a % 256 + b % 256, a / 256 + b / 256);
  }

  /** The worked example of seven samples of 10: the exact formula gives 0.1,
      the uint8 evaluation 160 / 40000 = 0.004. */
  lemma SevenTensAsWritten()
    ensures AwcAsWritten([10, 10, 10, 10, 10, 10, 10]) == 0.004
    ensures AwcFormula([10, 10, 10, 10, 10, 10, 10]) == 0.1
  {
    var v: Column := [10, 10, 10, 10, 10, 10, 10];
    FormulaOfConstant(v, 10);
    AsWrittenIsSumModulo256(v);
    assert WeightedSum(v) == 4000;
  }

  /** Whenever the intended fraction exceeds 255 / 40000 (about 0.0064),
      the value as written is strictly smaller than intended. */
  lemma AsWrittenUnderstates(v: Column)
    requires AwcFormula(v) > 255.0 / 40000.0
    ensures AwcAsWritten(v) < AwcFormula(v)
  {
  }

  /** The two evaluations agree exactly when the exact weighted sum fits in a byte. */
  lemma AsWrittenAgreesIffNoOverflow(v: Column)
    ensures AwcAsWritten(v) == AwcFormula(v) <==> WeightedSum(v) < 256
  {
    AsWrittenIsSumModulo256(v);
    var w := WeightedSum(v);
    assert AwcFormula(v) == (w as real) / 40000.0;
    ResidueIsSelfIffSmall(w);
    FractionInjective(w % 256, w);
  }

  /** A non-negative number is its own residue modulo 256 exactly when it is below 256. */
  lemma ResidueIsSelfIffSmall(w: nat)
    ensures w % 256 == w <==> w < 256
  {
  }

  /** Distinct sums give distinct fractions. */
  lemma FractionInjective(a: int, b: int)
    ensures (a as real) / 40000.0 == (b as real) / 40000.0 <==> a == b
  {
  }

  // ---------------------------------------------------------------------
  // The block function as written.

  /** One pixel as the source writes it: nodata when any layer is nodata,
      otherwise the uint8-evaluated fraction. */
  function PixelAsWritten(v: Column): (r: real)
    ensures r == NodataFloat32 <==> exists k :: 0 <= k < LayerCount && v[k] == InputNodata
    ensures Valid(v) ==> r == ((WeightedSum(v) % 256) as real) / 40000.0
  {
    if Valid(v) then
      AsWrittenIsSumModulo256(v);
      AwcAsWritten(v)
    else
      NodataFloat32
  }

  /** The output block as the source writes it. The masking is unaffected
      by the wrap-around: a pixel is nodata exactly where some layer is. */
  function BlockAsWritten(layers: seq<seq<Byte>>): (r: seq<real>)
    requires Aligned(layers)
    ensures |r| == Width(layers)
    ensures forall i :: 0 <= i < |r| ==>
              (r[i] == NodataFloat32 <==> exists k :: 0 <= k < LayerCount && layers[k][i] == InputNodata)
    ensures forall i :: 0 <= i < |r| && Valid(ColumnAt(layers, i)) ==>
              r[i] == ((WeightedSum(ColumnAt(layers, i)) % 256) as real) / 40000.0
  {
    seq(Width(layers), i requires 0 <= i < Width(layers) => PixelAsWritten(ColumnAt(layers, i)))
  }

  /** The block as written and the corrected block agree on every nodata
      pixel and differ exactly at the valid pixels whose exact bracket
      does not fit in a byte. */
  lemma AsWrittenBlockDiffersOnlyOnOverflow(layers: seq<seq<Byte>>)
    requires Aligned(layers)
    ensures forall i :: 0 <= i < Width(layers) ==>
              (BlockAsWritten(layers)[i] == BlockAwc(layers)[i] <==>
                 !Valid(ColumnAt(layers, i)) || WeightedSum(ColumnAt(layers, i)) < 256)
  {
    forall i | 0 <= i < Width(layers)
      ensures BlockAsWritten(layers)[i] == BlockAwc(layers)[i] <==>
                !Valid(ColumnAt(layers, i)) || WeightedSum(ColumnAt(layers, i)) < 256
    {
      AsWrittenAgreesIffNoOverflow(ColumnAt(layers, i));
    }
  }

  /** The block as written is pixel-local too: computing on two blocks
      joined together equals joining the two results. */
  lemma AsWrittenConcatLocality(a: seq<seq<Byte>>, b: seq<seq<Byte>>)
    requires Aligned(a) && Aligned(b)
    ensures BlockAsWritten(Concat(a, b)) == BlockAsWritten(a) + BlockAsWritten(b)
  {
    var c := Concat(a, b);
    forall i | 0 <= i < Width(c)
      ensures BlockAsWritten(c)[i] == (BlockAsWritten(a) + BlockAsWritten(b))[i]
    {
      if i < Width(a) {
        assert ColumnAt(c, i) == ColumnAt(a, i);
      } else {
        assert ColumnAt(c, i) == ColumnAt(b, i - Width(a));
      }
    }
  }
}
