# AWC raster algebra — a Dafny model

This project models the raster algebra at the heart of the ISRIC AWC pipeline.
The pipeline reads seven co-registered rasters of soil water retention, at depths
0, 5, 15, 30, 60, 100 and 200 cm. Each holds unsigned 8-bit values with nodata 255.
It combines them into one raster of plant-available water capacity (AWC): a
per-pixel trapezoidal integral over depth, averaged over the 200 cm profile and
divided by 100 to give a volume fraction. A pixel where any layer is nodata
becomes the output nodata sentinel. That sentinel is the most negative finite
float32.

Modules:

- `AwcPixel` (`awc_pixel.dfy`) covers one pixel. It holds the constants, the
  source's hand-expanded formula in exact arithmetic (`AwcFormula`) and a
  reference trapezoid rule over any increasing depth list (`TrapezoidSum`). It
  proves that they agree, and it proves the bounds, the closed form for
  constant samples and the worked example.
- `Uint8Formula` (`uint8_formula.dfy`) is the same formula as the source
  actually evaluates it on uint8 arrays, where every intermediate wraps modulo
  256 (see Findings). It also holds the block function as written
  (`BlockAsWritten`), with its masking, its locality and exactly where it
  departs from the corrected block.
- `AwcBlock` (`awc_block.dfy`) is the block function. It builds the validity
  mask by AND-ing the seven layers (`ValidMask`) and fills the output block
  (`Calculate`). It also holds the pixel-locality lemmas and block-wise
  iteration over arbitrary windows (`CalculateByWindows`).
- `AwcPipeline` (`awc_pipeline.dfy`) is the entry point. It runs the nodata
  check on all seven rasters first and only then combines them, returning a
  `Result`.
- `Wrappers` (`wrappers.dfy`) provides `Option` and `Result`.

Arithmetic is exact: `int` for samples and `real` for fractions. A raster's 2-D
block is flattened in row-major order. A window is any sequence of pixel
indices, so the results hold for rectangular tiles of any size.

The code's own comments (pipeline.py:178-179) expect results in 0-100 before
the division by 100 and 0-1 after it. The code itself, however, does the
bracketed sum in uint8 arithmetic. The model records the code as written
(`Uint8Formula`). Everything else uses the evidently intended exact formula.

## Model

| member | source | states |
|---|---|---|
| AwcPixel.AwcFormula | pipeline.py:166-173 | A valid pixel's AWC is never negative, so it always lies strictly above the output nodata sentinel |
| AwcPixel.PixelAwc | pipeline.py:158-173 | A pixel's output is the nodata sentinel exactly when one of its seven samples is 255. Otherwise it is the trapezoid-rule depth mean and lies between its smallest and largest sample divided by 100 |
| AwcPixel.FormulaIsTrapezoidMean | pipeline.py:166-173 | The six hand-written interval terms, scaled by (1/200)(1/2)/100, equal the trapezoid rule over depths 0..200 cm averaged over the 200 cm profile, as a fraction |
| AwcPixel.TrapezoidSumBounds | pipeline.py:166-173 | Over any strictly increasing depths, the trapezoid sum of samples in [lo, hi] lies between 2·lo·span and 2·hi·span |
| AwcPixel.TrapezoidSumOfConstant | pipeline.py:166-173 | The trapezoid sum of a constant sample c is exactly 2·c·span |
| AwcPixel.FormulaWithinSampleRange | pipeline.py:166-173 | A valid output lies between min(v)/100 and max(v)/100 of the pixel's seven samples |
| AwcPixel.FormulaIsFraction | pipeline.py:166-179 | Samples in 0..100 give an output in [0, 1], the range the code's comments expect |
| AwcPixel.FormulaOfConstant | pipeline.py:166-173 | Seven equal samples c give c/100, because the interval widths add up to the 200 cm divisor |
| AwcPixel.SevenTensGiveOneTenth | pipeline.py:166-173 | Seven samples of 10 give the fraction 0.1 |
| Uint8Formula.AwcAsWritten | pipeline.py:166-173 | As written (uint8 wrap-around), a valid pixel's output never exceeds 255/40000 |
| Uint8Formula.WrappedSumIsSumModulo256 | pipeline.py:166-172 | The bracket as evaluated on uint8 arrays equals the exact bracket modulo 256 |
| Uint8Formula.AsWrittenIsSumModulo256 | pipeline.py:166-173 | The output as written is (exact bracket mod 256)/40000 |
| Uint8Formula.SevenTensAsWritten | pipeline.py:166-173 | Seven samples of 10 give 0.004 as written, against 0.1 intended |
| Uint8Formula.AsWrittenUnderstates | pipeline.py:166-173 | Whenever the intended fraction exceeds 255/40000, the value as written is strictly smaller |
| Uint8Formula.AsWrittenAgreesIffNoOverflow | pipeline.py:166-173 | The written and intended values agree exactly when the exact bracket is below 256 |
| Uint8Formula.PixelAsWritten | pipeline.py:158-173 | As written, a pixel is nodata exactly when one of its samples is 255, and otherwise it holds (exact bracket mod 256)/40000 |
| Uint8Formula.BlockAsWritten | pipeline.py:155-174 | The block as written has the input length. A pixel is nodata exactly when some layer holds 255 there, and otherwise it holds its column's (exact bracket mod 256)/40000 |
| Uint8Formula.AsWrittenBlockDiffersOnlyOnOverflow | pipeline.py:155-174 | The block as written and the corrected block agree at a pixel exactly when the pixel is nodata or its exact bracket is below 256 |
| Uint8Formula.AsWrittenConcatLocality | pipeline.py:155-174 | As written, computing on two joined blocks also equals joining the two blocks' outputs |
| AwcBlock.ValidMask | pipeline.py:160-164 | The mask has one entry per pixel, and an entry is true exactly when no layer holds 255 at that pixel |
| AwcBlock.BlockAwc | pipeline.py:155-174 | The output block has the input blocks' length. A pixel is nodata exactly when some layer holds 255 there, and otherwise it holds the trapezoid-rule mean of its column |
| AwcBlock.Calculate | pipeline.py:155-174 | Filling with the sentinel, masking and then writing the valid pixels gives an output of the input length. Each pixel is nodata if and only if some layer is 255, valid pixels hold the trapezoid mean, and the result equals the pixel-wise reference |
| AwcBlock.PixelLocality | pipeline.py:155-174 | An output pixel depends only on the seven samples at that pixel |
| AwcBlock.ConcatLocality | pipeline.py:155-174 | Computing on two blocks joined side by side equals joining the two blocks' outputs |
| AwcBlock.WindowLocality | pipeline.py:183-186 | Computing on any window's samples gives the whole-grid output restricted to that window |
| AwcBlock.CalculateByWindows | pipeline.py:183-186 | Block-wise iteration writes the whole-grid value to every pixel any window touches and leaves the others nodata. A covering set of windows gives exactly the whole-grid output, for any block size or shape |
| AwcPipeline.CalculateAwc | pipeline.py:141-186 | Fails with a nodata mismatch, and produces no pixel, exactly when some raster reports a nodata other than 255. Succeeds exactly when all report 255 and all have the first raster's column and row counts. It then gives an output of that size, nodata exactly where some layer is 255 and the trapezoid mean elsewhere |
| AwcPipeline.NodataCheck | pipeline.py:150-153 | The reported nodata list equals seven copies of 255 exactly when every raster reports 255 |
| AwcPipeline.TransposedShapesAreRefused | pipeline.py:183-186 | Rasters with equal pixel counts but different shapes (3 × 2 against 2 × 3) are refused as misaligned |
| AwcPipeline.CalculateAwcBlockwise | pipeline.py:150-186 | Running the nodata check and then iterating over any covering windows gives the same result as the whole computation |

## Left out

- Downloading (`fetch_raster`, pipeline.py:92-129) is network and file I/O, so it is not modelled. As written it also does not resume: the file is reopened with truncation on every retry, and the Range header lacks its trailing `-`.
- Checksums (`_digest_file`, pipeline.py:81-89) are a call into MD5 over file reads, so they are not modelled.
- The command line and cache directory (`main`, pipeline.py:189-223) are argument parsing and filesystem checks, so they are not modelled.
- The URL and MD5 catalogs (pipeline.py:18-77) are configuration data, not logic.
- The GTiff creation options (tiling, compression, BigTIFF, threads; pipeline.py:180-182) are output format only. They do not change pixel values.
- The raster library's choice of block windows is external. It is a parameter of `AwcBlock.CalculateByWindows`, and the model proves the result does not depend on it.
- Of that library's input checks, only the size check is modelled: every raster must have the first raster's column and row counts, or the result is the `Misaligned` error. Checks on band indices and geotransforms are not.
- Float32 storage and floating-point rounding are left out. Values are exact reals, and the sentinel is the exact real value of the float32 minimum.
- 2-D array shapes are flattened to sequences in row-major order.
- AwcPixel.PixelAwc: computes a valid pixel with the corrected exact bracket of the Findings row, not with the uint8 arithmetic the code performs. The code-as-written counterpart is Uint8Formula.PixelAsWritten.
- AwcBlock.BlockAwc: uses the corrected formula through AwcPixel.PixelAwc. The code-as-written counterpart is Uint8Formula.BlockAsWritten, and Uint8Formula.AsWrittenBlockDiffersOnlyOnOverflow states where the two differ.
- AwcBlock.Calculate: writes the corrected formula at valid pixels. For seven samples of 10 it gives 0.1 where the code writes 0.004.
- AwcBlock.CalculateByWindows: block-wise iteration is proved for the corrected block function. For the code as written only two-block concatenation is stated (Uint8Formula.AsWrittenConcatLocality).
- AwcPipeline.CalculateAwcBlockwise: combines the rasters with the corrected formula.
- AwcPipeline.CalculateAwc: combines the rasters with the corrected formula. The masking, the nodata check and the size check are as in the code.
- AwcPipeline.CalculateAwc: the nodata check is a Python `assert`, which `python -O` removes. The model always performs the check.

## Findings

| source | as written | input that shows it | evidently intended | confidence | as-written member | corrected member |
|---|---|---|---|---|---|---|
| pipeline.py:166-173 | The bracket is evaluated on uint8 arrays. Each `v_a + v_b`, each product by an interval width (a Python int that fits in uint8) and each partial sum wraps modulo 256. Only the final multiplication by the float (1/200)·(1/2) promotes to floating point | Seven samples of 10: the exact bracket is 4000, the uint8 bracket is 4000 mod 256 = 160, so the output is 0.004 | The bracket computed without wrap-around (e.g. after converting the blocks to float), giving 0.1 | high; numpy's uint8 arithmetic wraps silently under both its old and new casting rules; not executed | Uint8Formula.AwcAsWritten | AwcPixel.AwcFormula |
